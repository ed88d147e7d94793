/** The JSON builder of json_builder.cpp as a state machine. The source keeps
    a stack of `Node*` into the tree under construction; here each stack
    entry is the path from the root to that node. `back()` of an empty stack
    is undefined behaviour. */
module JsonBuilder {
  import opened Wrappers
  import opened Json

  /** One step down the tree: an array element or a dictionary entry. */
  datatype Step = Idx(k: nat) | Field(key: string)

  type Path = seq<Step>

  /** The node at `p`, if the path exists. */
  function Get(n: Node, p: Path): Option<Node>
    decreases |p|
  {
    if |p| == 0 then Some(n)
    else match p[0]
      case Idx(k) => if n.Array? && k < |n.items| then Get(n.items[k], p[1..]) else None
      case Field(key) => if n.Dict? && key in n.entries then Get(n.entries[key], p[1..]) else None
  }

  /** `n` with the node at `p` replaced by `v` (unchanged if `p` does not exist). */
  function Set(n: Node, p: Path, v: Node): Node
    decreases |p|
  {
    if |p| == 0 then v
    else match p[0]
      case Idx(k) => if n.Array? && k < |n.items| then Array(n.items[k := Set(n.items[k], p[1..], v)]) else n
      case Field(key) => if n.Dict? && key in n.entries then Dict(n.entries[key := Set(n.entries[key], p[1..], v)]) else n
  }

  lemma {:induction false} GetSet(n: Node, p: Path, q: Path, v: Node)
    requires Get(n, p).Some?
    ensures Get(Set(n, p, v), p + q) == Get(v, q)
    decreases |p|
  {
    if |p| > 0 {
      assert (p + q)[0] == p[0] && (p + q)[1..] == p[1..] + q;
      match p[0]
      case Idx(k) => GetSet(n.items[k], p[1..], q, v);
      case Field(key) => GetSet(n.entries[key], p[1..], q, v);
    } else {
      assert p + q == q;
    }
  }

  lemma {:induction false} SetSet(n: Node, p: Path, q: Path, v: Node, w: Node)
    requires Get(n, p).Some?
    ensures Set(Set(n, p, v), p + q, w) == Set(n, p, Set(v, q, w))
    decreases |p|
  {
    if |p| > 0 {
      match p[0]
      case Idx(k) =>
        SetSet(n.items[k], p[1..], q, v, w);
        SetSetIdx(n, p, q, v, w, k);
      case Field(key) =>
        SetSet(n.entries[key], p[1..], q, v, w);
        SetSetField(n, p, q, v, w, key);
    } else {
      assert p + q == q;
    }
  }

  /** `SetSet` one array step down, given it below. */
  lemma SetSetIdx(n: Node, p: Path, q: Path, v: Node, w: Node, k: nat)
    requires |p| > 0 && p[0] == Idx(k) && n.Array? && k < |n.items|
    requires Set(Set(n.items[k], p[1..], v), p[1..] + q, w) == Set(n.items[k], p[1..], Set(v, q, w))
    ensures Set(Set(n, p, v), p + q, w) == Set(n, p, Set(v, q, w))
  {
    assert (p + q)[0] == p[0] && (p + q)[1..] == p[1..] + q;
    var x := n.items[k];
    var a := n.items[k := Set(x, p[1..], v)];
    var z := Set(x, p[1..], Set(v, q, w));
    assert Set(n, p, v) == Array(a);
    assert Set(a[k], p[1..] + q, w) == z;
    assert Set(Array(a), p + q, w) == Array(a[k := z]);
    assert a[k := z] == n.items[k := z];
  }

  /** `SetSet` one dictionary step down, given it below. */
  lemma SetSetField(n: Node, p: Path, q: Path, v: Node, w: Node, key: string)
    requires |p| > 0 && p[0] == Field(key) && n.Dict? && key in n.entries
    requires Set(Set(n.entries[key], p[1..], v), p[1..] + q, w) == Set(n.entries[key], p[1..], Set(v, q, w))
    ensures Set(Set(n, p, v), p + q, w) == Set(n, p, Set(v, q, w))
  {
    assert (p + q)[0] == p[0] && (p + q)[1..] == p[1..] + q;
    var x := n.entries[key];
    var a := n.entries[key := Set(x, p[1..], v)];
    var z := Set(x, p[1..], Set(v, q, w));
    assert Set(n, p, v) == Dict(a);
    assert Set(a[key], p[1..] + q, w) == z;
    assert Set(Dict(a), p + q, w) == Dict(a[key := z]);
    assert a[key := z] == n.entries[key := z];
  }

  lemma {:induction false} GetSetPrefix(n: Node, p: Path, q: Path, v: Node)
    requires Get(n, p + q).Some?
    ensures Get(Set(n, p + q, v), p).Some?
    decreases |p|
  {
    if |p| > 0 {
      assert (p + q)[0] == p[0] && (p + q)[1..] == p[1..] + q;
      match p[0]
      case Idx(k) => GetSetPrefix(n.items[k], p[1..], q, v);
      case Field(key) => GetSetPrefix(n.entries[key], p[1..], q, v);
    }
  }

  lemma SetHere(n: Node, p: Path, v: Node)
    requires Get(n, p).Some?
    ensures Get(Set(n, p, v), p) == Some(v)
    ensures Set(Set(n, p, v), p, v) == Set(n, p, v)
  {
    GetSet(n, p, [], v);
    SetSet(n, p, [], v, v);
    assert p + [] == p;
  }

  lemma SetSame(n: Node, p: Path, v: Node, w: Node)
    requires Get(n, p).Some?
    ensures Set(Set(n, p, v), p, w) == Set(n, p, w)
  {
    SetSet(n, p, [], v, w);
    assert p + [] == p;
  }

  // --------------------------------------------------------------- state

  datatype Builder = Builder(root: Node, stack: seq<Path>, keyAdded: bool, valueAssigned: bool)

  /** `Builder()`: a null root and a stack holding only the root. */
  const Fresh: Builder := Builder(Null, [[]], false, false)

  /** `nodes_stack_.back()` and the node it points to. */
  function Top(b: Builder): (r: Result<(Path, Node)>)
    ensures r.Failure? <==> |b.stack| == 0 || Get(b.root, b.stack[|b.stack| - 1]).None?
    ensures r.Failure? ==> r.error == Undefined
    ensures r.Success? ==> r.value.0 == b.stack[|b.stack| - 1] && Get(b.root, r.value.0) == Some(r.value.1)
  {
    if |b.stack| == 0 then Failure(Undefined)
    else
      var p := b.stack[|b.stack| - 1];
      match Get(b.root, p)
      case None => Failure(Undefined)
      case Some(n) => Success((p, n))
  }

  function Pop(s: seq<Path>): seq<Path>
    requires |s| > 0
  {
    s[..|s| - 1]
  }

  /** `Key`: only an open dictionary accepts a key; `emplace` adds a null
      entry unless the key is present, and that entry becomes the top. */
  function Key(b: Builder, key: string): (r: Result<Builder>)
    ensures Top(b).Success? ==> (r.Success? <==> Top(b).value.1.Dict?)
    ensures Top(b).Success? && r.Failure? ==> r.error == LogicError
    ensures r.Success? ==> Top(b).Success?
    ensures r.Success? ==>
      var (p, top) := Top(b).value;
      && r.value.stack == b.stack + [p + [Field(key)]]
      && r.value.keyAdded && r.value.valueAssigned == b.valueAssigned
      && r.value.root == (if key in top.entries then b.root else Set(b.root, p, Dict(top.entries[key := Null])))
  {
    var (p, top) :- Top(b);
    if top.Dict? then
      var root := if key in top.entries then b.root else Set(b.root, p, Dict(top.entries[key := Null]));
      Success(b.(root := root, stack := b.stack + [p + [Field(key)]], keyAdded := true))
    else Failure(LogicError)
  }

  /** `Value`: sets an untouched root once, appends to an open array, or
      fills the slot of the last key and returns to its dictionary. */
  function Value(b: Builder, v: Node): (r: Result<Builder>)
    ensures Top(b).Success? ==>
      var top := Top(b).value.1;
      r.Success? <==> (top.Null? && !b.keyAdded && !b.valueAssigned) || top.Array? || b.keyAdded
    ensures Top(b).Success? && r.Failure? ==> r.error == LogicError
    ensures r.Success? ==> Top(b).Success?
    ensures r.Success? ==>
      var (p, top) := Top(b).value;
      if top.Null? && !b.keyAdded && !b.valueAssigned then
        r.value == b.(root := Set(b.root, p, v), valueAssigned := true)
      else if top.Array? then
        r.value == b.(root := Set(b.root, p, Array(top.items + [v])))
      else
        r.value == b.(root := Set(b.root, p, v), stack := Pop(b.stack), keyAdded := false)
  {
    var (p, top) :- Top(b);
    if top.Null? && !b.keyAdded && !b.valueAssigned then
      Success(b.(root := Set(b.root, p, v), valueAssigned := true))
    else if top.Array? then
      Success(b.(root := Set(b.root, p, Array(top.items + [v]))))
    else if b.keyAdded then
      Success(b.(root := Set(b.root, p, v), stack := Pop(b.stack), keyAdded := false))
    else Failure(LogicError)
  }

  /** `StartDict` / `StartArray` with the empty container `empty`: it
      replaces an untouched root, is appended to an open array (and becomes
      the top), or replaces the slot of the last key (already the top). */
  function Start(b: Builder, empty: Node): (r: Result<Builder>)
    ensures Top(b).Success? ==>
      var top := Top(b).value.1;
      r.Success? <==> (top.Null? && !b.keyAdded) || top.Array? || b.keyAdded
    ensures Top(b).Success? && r.Failure? ==> r.error == LogicError
    ensures r.Success? ==> Top(b).Success?
    ensures r.Success? ==>
      var (p, top) := Top(b).value;
      if top.Null? && !b.keyAdded then
        r.value == b.(root := Set(b.root, p, empty))
      else if top.Array? then
        r.value == b.(root := Set(b.root, p, Array(top.items + [empty])), stack := b.stack + [p + [Idx(|top.items|)]])
      else
        r.value == b.(root := Set(b.root, p, empty), keyAdded := false)
  {
    var (p, top) :- Top(b);
    if top.Null? && !b.keyAdded then
      Success(b.(root := Set(b.root, p, empty)))
    else if top.Array? then
      Success(b.(root := Set(b.root, p, Array(top.items + [empty])), stack := b.stack + [p + [Idx(|top.items|)]]))
    else if b.keyAdded then
      Success(b.(root := Set(b.root, p, empty), keyAdded := false))
    else Failure(LogicError)
  }

  function StartDict(b: Builder): (r: Result<Builder>)
    ensures r == Start(b, Dict(map[]))
  {
    Start(b, Dict(map[]))
  }

  function StartArray(b: Builder): (r: Result<Builder>)
    ensures r == Start(b, Array([]))
  {
    Start(b, Array([]))
  }

  /** `EndDict`: pops only an open dictionary. */
  function EndDict(b: Builder): (r: Result<Builder>)
    ensures Top(b).Success? ==> (r.Success? <==> Top(b).value.1.Dict?)
    ensures Top(b).Success? && r.Failure? ==> r.error == LogicError
    ensures r.Success? ==> |b.stack| > 0 && r.value == b.(stack := Pop(b.stack))
  {
    var (_, top) :- Top(b);
    if top.Dict? then Success(b.(stack := Pop(b.stack))) else Failure(LogicError)
  }

  /** `EndArray`: pops only an open array. */
  function EndArray(b: Builder): (r: Result<Builder>)
    ensures Top(b).Success? ==> (r.Success? <==> Top(b).value.1.Array?)
    ensures Top(b).Success? && r.Failure? ==> r.error == LogicError
    ensures r.Success? ==> |b.stack| > 0 && r.value == b.(stack := Pop(b.stack))
  {
    var (_, top) :- Top(b);
    if top.Array? then Success(b.(stack := Pop(b.stack))) else Failure(LogicError)
  }

  /** `Build`: the root once a root value was assigned or every container
      was closed; an untouched top or an open container throws. */
  function Build(b: Builder): (r: Result<Node>)
    ensures b.valueAssigned || |b.stack| == 0 ==> r == Success(b.root)
    ensures !b.valueAssigned && Top(b).Success? ==>
      var top := Top(b).value.1;
      r == if top.Null? || top.Array? || top.Dict? then Failure(LogicError) else Success(b.root)
  {
    if b.valueAssigned then Success(b.root)
    else if |b.stack| == 0 then Success(b.root)
    else
      var (_, top) :- Top(b);
      if top.Null? || top.Array? || top.Dict? then Failure(LogicError) else Success(b.root)
  }

  // ------------------------------------------------------------ commands

  datatype Command =
    | KeyCall(key: string)
    | ValueCall(value: Node)
    | StartDictCall
    | StartArrayCall
    | EndDictCall
    | EndArrayCall

  function Apply(b: Builder, c: Command): Result<Builder>
  {
    match c
    case KeyCall(key) => Key(b, key)
    case ValueCall(v) => Value(b, v)
    case StartDictCall => StartDict(b)
    case StartArrayCall => StartArray(b)
    case EndDictCall => EndDict(b)
    case EndArrayCall => EndArray(b)
  }

  /** A chain of calls; the first exception ends it. */
  function Run(b: Builder, cs: seq<Command>): Result<Builder>
    decreases |cs|
  {
    if |cs| == 0 then Success(b)
    else
      var b' :- Apply(b, cs[0]);
      Run(b', cs[1..])
  }

  lemma {:induction false} RunAppend(b: Builder, cs: seq<Command>, ds: seq<Command>)
    ensures Run(b, cs + ds) == match Run(b, cs) case Success(b') => Run(b', ds) case Failure(e) => Failure(e)
    decreases |cs|
  {
    if |cs| > 0 {
      assert (cs + ds)[0] == cs[0] && (cs + ds)[1..] == cs[1..] + ds;
      if Apply(b, cs[0]).Success? {
        RunAppend(Apply(b, cs[0]).value, cs[1..], ds);
      }
    } else {
      assert cs + ds == ds;
    }
  }

  // ----------------------------------------------------------- invariant

  predicate IsPrefix(p: Path, q: Path) {
    |p| <= |q| && q[..|p|] == p
  }

  /** Every stack entry points into the tree, the bottom one at the root,
      and each entry lies inside the one below it. */
  ghost predicate Valid(b: Builder) {
    && (|b.stack| > 0 ==> b.stack[0] == [])
    && (forall i :: 0 <= i < |b.stack| ==> Get(b.root, b.stack[i]).Some?)
    && (forall i, j :: 0 <= i < j < |b.stack| ==> IsPrefix(b.stack[i], b.stack[j]))
  }

  lemma FreshValid()
    ensures Valid(Fresh)
  {
  }

  /** Replacing the top node keeps every lower entry pointing into the tree. */
  lemma SetTopValid(b: Builder, v: Node)
    requires Valid(b) && |b.stack| > 0
    ensures Valid(b.(root := Set(b.root, b.stack[|b.stack| - 1], v)))
  {
    var p := b.stack[|b.stack| - 1];
    var b' := b.(root := Set(b.root, p, v));
    forall i | 0 <= i < |b.stack| ensures Get(b'.root, b.stack[i]).Some? {
      var q := b.stack[i];
      if i < |b.stack| - 1 {
        assert IsPrefix(q, p);
      }
      assert p == q + p[|q|..];
      GetSetPrefix(b.root, q, p[|q|..], v);
    }
  }

  lemma PushValid(b: Builder, s: Step)
    requires Valid(b) && |b.stack| > 0
    requires Get(b.root, b.stack[|b.stack| - 1] + [s]).Some?
    ensures Valid(b.(stack := b.stack + [b.stack[|b.stack| - 1] + [s]]))
  {
    var p := b.stack[|b.stack| - 1];
    var st := b.stack + [p + [s]];
    forall i, j | 0 <= i < j < |st| ensures IsPrefix(st[i], st[j]) {
      if j == |st| - 1 {
        if i < |b.stack| - 1 {
          assert IsPrefix(b.stack[i], p);
        }
        assert (p + [s])[..|p|] == p;
      }
    }
  }

  /** Every call keeps the invariant. */
  lemma ApplyValid(b: Builder, c: Command)
    requires Valid(b) && Apply(b, c).Success?
    ensures Valid(Apply(b, c).value)
  {
    var (p, top) := Top(b).value;
    match c
    case KeyCall(key) =>
      var root := if key in top.entries then b.root else Set(b.root, p, Dict(top.entries[key := Null]));
      var b1 := b.(root := root);
      if key !in top.entries {
        SetTopValid(b, Dict(top.entries[key := Null]));
        GetSet(b.root, p, [Field(key)], Dict(top.entries[key := Null]));
      } else {
        GetSet(b.root, p, [Field(key)], top);
        SetHere(b.root, p, top);
        assert Set(b.root, p, top) == b.root by {
          SetGetSame(b.root, p);
        }
      }
      PushValid(b1, Field(key));
    case ValueCall(v) =>
      if top.Null? && !b.keyAdded && !b.valueAssigned {
        SetTopValid(b, v);
      } else if top.Array? {
        SetTopValid(b, Array(top.items + [v]));
      } else {
        SetTopValid(b, v);
      }
    case StartDictCall =>
      StartValid(b, Dict(map[]));
    case StartArrayCall =>
      StartValid(b, Array([]));
    case EndDictCall =>
    case EndArrayCall =>
  }

  lemma StartValid(b: Builder, empty: Node)
    requires Valid(b) && Start(b, empty).Success?
    ensures Valid(Start(b, empty).value)
  {
    var (p, top) := Top(b).value;
    if top.Null? && !b.keyAdded {
      SetTopValid(b, empty);
    } else if top.Array? {
      var grown := Array(top.items + [empty]);
      SetTopValid(b, grown);
      GetSet(b.root, p, [Idx(|top.items|)], grown);
      PushValid(b.(root := Set(b.root, p, grown)), Idx(|top.items|));
    } else {
      SetTopValid(b, empty);
    }
  }

  lemma {:induction false} SetGetSame(n: Node, p: Path)
    requires Get(n, p).Some?
    ensures Set(n, p, Get(n, p).value) == n
    decreases |p|
  {
    if |p| > 0 {
      match p[0]
      case Idx(k) =>
        SetGetSame(n.items[k], p[1..]);
        assert n.items[k := n.items[k]] == n.items;
      case Field(key) =>
        SetGetSame(n.entries[key], p[1..]);
        assert n.entries[key := n.entries[key]] == n.entries;
    }
  }

  lemma {:induction false} RunValid(b: Builder, cs: seq<Command>)
    requires Valid(b) && Run(b, cs).Success?
    ensures Valid(Run(b, cs).value)
    decreases |cs|
  {
    if |cs| > 0 {
      ApplyValid(b, cs[0]);
      RunValid(Apply(b, cs[0]).value, cs[1..]);
    }
  }

  // ---------------------------------------------------- documents

  /** A document to build: a value given to one `Value` call, or an array
      or dictionary built element by element. */
  datatype Doc = Leaf(value: Node) | ArrayDoc(items: seq<Doc>) | DictDoc(members: seq<Member>)
  datatype Member = Member(key: string, value: Doc)

  /** Dictionary keys are distinct, at every level. */
  predicate WellKeyed(d: Doc) {
    match d
    case Leaf(_) => true
    case ArrayDoc(items) => forall k :: 0 <= k < |items| ==> WellKeyed(items[k])
    case DictDoc(ms) =>
      && (forall i, j :: 0 <= i < j < |ms| ==> ms[i].key != ms[j].key)
      && forall k :: 0 <= k < |ms| ==> WellKeyed(ms[k].value)
  }

  /** The entries in order, the first of a repeated key winning. */
  function Entries(ps: seq<(string, Node)>): map<string, Node>
  {
    if |ps| == 0 then map[]
    else
      var m := Entries(ps[..|ps| - 1]);
      var (k, v) := ps[|ps| - 1];
      if k in m then m else m[k := v]
  }

  function ToNode(d: Doc): Node
  {
    match d
    case Leaf(v) => v
    case ArrayDoc(items) => Array(seq(|items|, k requires 0 <= k < |items| => ToNode(items[k])))
    case DictDoc(ms) => Dict(Entries(seq(|ms|, k requires 0 <= k < |ms| => (ms[k].key, ToNode(ms[k].value)))))
  }

  lemma {:induction false} EntriesDistinct(ps: seq<(string, Node)>)
    requires forall i, j :: 0 <= i < j < |ps| ==> ps[i].0 != ps[j].0
    ensures forall i :: 0 <= i < |ps| ==> ps[i].0 in Entries(ps) && Entries(ps)[ps[i].0] == ps[i].1
    ensures forall k :: k in Entries(ps) ==> exists i :: 0 <= i < |ps| && ps[i].0 == k
  {
    if |ps| > 0 {
      var prefix := ps[..|ps| - 1];
      EntriesDistinct(prefix);
      assert forall i :: 0 <= i < |prefix| ==> prefix[i] == ps[i];
    }
  }

  lemma {:induction false} SubsetSize<T>(a: set<T>, b: set<T>)
    requires a <= b
    ensures |a| <= |b|
    decreases |b|
  {
    if b != {} {
      var x :| x in b;
      SubsetSize(a - {x}, b - {x});
    }
  }

  lemma SubsetSameSize<T>(a: set<T>, b: set<T>)
    requires a <= b && |a| == |b|
    ensures a == b
  {
    if a != b {
      var x :| x in b && x !in a;
      SubsetSize(a, b - {x});
    }
  }

  lemma {:induction false} EntriesSize(ps: seq<(string, Node)>)
    requires forall i, j :: 0 <= i < j < |ps| ==> ps[i].0 != ps[j].0
    ensures |Entries(ps)| == |ps|
  {
    if |ps| > 0 {
      var prefix := ps[..|ps| - 1];
      EntriesSize(prefix);
      EntriesDistinct(prefix);
      assert ps[|ps| - 1].0 !in Entries(prefix);
    }
  }

  /** With distinct keys, a dictionary document denotes the object that maps
      each key to its value's node. */
  lemma DictDocNode(ms: seq<Member>, m: map<string, Node>)
    requires forall i, j :: 0 <= i < j < |ms| ==> ms[i].key != ms[j].key
    requires forall i :: 0 <= i < |ms| ==> ms[i].key in m && m[ms[i].key] == ToNode(ms[i].value)
    requires |m| == |ms|
    ensures ToNode(DictDoc(ms)) == Dict(m)
  {
    var ps := seq(|ms|, k requires 0 <= k < |ms| => (ms[k].key, ToNode(ms[k].value)));
    EntriesDistinct(ps);
    EntriesSize(ps);
    var e := Entries(ps);
    forall k | k in e
      ensures k in m && m[k] == e[k]
    {
      var i :| 0 <= i < |ps| && ps[i].0 == k;
      assert ms[i].key == k;
    }
    assert e.Keys <= m.Keys;
    SubsetSameSize(e.Keys, m.Keys);
    assert e == m;
  }

  /** Two members with distinct keys make a well-keyed document denoting
      the object of their values; likewise for three, four and five. */
  lemma TwoMembers(k0: string, v0: Doc, k1: string, v1: Doc)
    requires k0 != k1 && WellKeyed(v0) && WellKeyed(v1)
    ensures var d := DictDoc([Member(k0, v0), Member(k1, v1)]);
      WellKeyed(d) && ToNode(d) == Dict(map[k0 := ToNode(v0), k1 := ToNode(v1)])
  {
    DictDocNode([Member(k0, v0), Member(k1, v1)], map[k0 := ToNode(v0), k1 := ToNode(v1)]);
  }

  lemma ThreeMembers(k0: string, v0: Doc, k1: string, v1: Doc, k2: string, v2: Doc)
    requires k0 != k1 && k0 != k2 && k1 != k2
    requires WellKeyed(v0) && WellKeyed(v1) && WellKeyed(v2)
    ensures var d := DictDoc([Member(k0, v0), Member(k1, v1), Member(k2, v2)]);
      WellKeyed(d) && ToNode(d) == Dict(map[k0 := ToNode(v0), k1 := ToNode(v1), k2 := ToNode(v2)])
  {
    DictDocNode([Member(k0, v0), Member(k1, v1), Member(k2, v2)], map[k0 := ToNode(v0), k1 := ToNode(v1), k2 := ToNode(v2)]);
  }

  lemma FourMembers(k0: string, v0: Doc, k1: string, v1: Doc, k2: string, v2: Doc, k3: string, v3: Doc)
    requires k0 != k1 && k0 != k2 && k0 != k3 && k1 != k2 && k1 != k3 && k2 != k3
    requires WellKeyed(v0) && WellKeyed(v1) && WellKeyed(v2) && WellKeyed(v3)
    ensures var d := DictDoc([Member(k0, v0), Member(k1, v1), Member(k2, v2), Member(k3, v3)]);
      WellKeyed(d) && ToNode(d) == Dict(map[k0 := ToNode(v0), k1 := ToNode(v1), k2 := ToNode(v2), k3 := ToNode(v3)])
  {
    DictDocNode([Member(k0, v0), Member(k1, v1), Member(k2, v2), Member(k3, v3)],
      map[k0 := ToNode(v0), k1 := ToNode(v1), k2 := ToNode(v2), k3 := ToNode(v3)]);
  }

  lemma FiveMembers(k0: string, v0: Doc, k1: string, v1: Doc, k2: string, v2: Doc, k3: string, v3: Doc, k4: string, v4: Doc)
    requires k0 != k1 && k0 != k2 && k0 != k3 && k0 != k4 && k1 != k2 && k1 != k3 && k1 != k4
    requires k2 != k3 && k2 != k4 && k3 != k4
    requires WellKeyed(v0) && WellKeyed(v1) && WellKeyed(v2) && WellKeyed(v3) && WellKeyed(v4)
    ensures var d := DictDoc([Member(k0, v0), Member(k1, v1), Member(k2, v2), Member(k3, v3), Member(k4, v4)]);
      && WellKeyed(d)
      && ToNode(d) == Dict(map[k0 := ToNode(v0), k1 := ToNode(v1), k2 := ToNode(v2), k3 := ToNode(v3), k4 := ToNode(v4)])
  {
    var ms := [Member(k0, v0), Member(k1, v1), Member(k2, v2), Member(k3, v3), Member(k4, v4)];
    KeysDistinct(ms);
    DictDocNode(ms, map[k0 := ToNode(v0), k1 := ToNode(v1), k2 := ToNode(v2), k3 := ToNode(v3), k4 := ToNode(v4)]);
  }

  lemma KeysDistinct(ms: seq<Member>)
    requires |ms| == 5
    requires ms[0].key != ms[1].key && ms[0].key != ms[2].key && ms[0].key != ms[3].key && ms[0].key != ms[4].key
    requires ms[1].key != ms[2].key && ms[1].key != ms[3].key && ms[1].key != ms[4].key
    requires ms[2].key != ms[3].key && ms[2].key != ms[4].key && ms[3].key != ms[4].key
    requires forall k :: 0 <= k < |ms| ==> WellKeyed(ms[k].value)
    ensures forall i, j :: 0 <= i < j < |ms| ==> ms[i].key != ms[j].key
    ensures WellKeyed(DictDoc(ms))
  {
  }

  function Flatten(ss: seq<seq<Command>>): seq<Command>
  {
    if |ss| == 0 then [] else ss[0] + Flatten(ss[1..])
  }

  /** The calls that build `d`. */
  function Emit(d: Doc): seq<Command>
  {
    match d
    case Leaf(v) => [ValueCall(v)]
    case ArrayDoc(items) =>
      [StartArrayCall] + Flatten(seq(|items|, k requires 0 <= k < |items| => Emit(items[k]))) + [EndArrayCall]
    case DictDoc(ms) =>
      [StartDictCall] + Flatten(seq(|ms|, k requires 0 <= k < |ms| => [KeyCall(ms[k].key)] + Emit(ms[k].value))) + [EndDictCall]
  }

  /** The number of children, for induction over the children of a doc. */
  function Width(d: Doc): nat {
    match d
    case Leaf(_) => 0
    case ArrayDoc(items) => |items|
    case DictDoc(ms) => |ms|
  }

  function ItemCalls(items: seq<Doc>, i: nat): seq<Command>
    requires i <= |items|
  {
    Flatten(seq(|items| - i, k requires 0 <= k < |items| - i => Emit(items[i + k])))
  }

  function MemberCalls(ms: seq<Member>, i: nat): seq<Command>
    requires i <= |ms|
  {
    Flatten(seq(|ms| - i, k requires 0 <= k < |ms| - i => [KeyCall(ms[i + k].key)] + Emit(ms[i + k].value)))
  }

  lemma ItemCallsStep(items: seq<Doc>, i: nat)
    requires i < |items|
    ensures ItemCalls(items, i) == Emit(items[i]) + ItemCalls(items, i + 1)
  {
    var ss := seq(|items| - i, k requires 0 <= k < |items| - i => Emit(items[i + k]));
    assert ss[1..] == seq(|items| - (i + 1), k requires 0 <= k < |items| - (i + 1) => Emit(items[i + 1 + k]));
  }

  lemma MemberCallsStep(ms: seq<Member>, i: nat)
    requires i < |ms|
    ensures MemberCalls(ms, i) == [KeyCall(ms[i].key)] + Emit(ms[i].value) + MemberCalls(ms, i + 1)
  {
    var ss := seq(|ms| - i, k requires 0 <= k < |ms| - i => [KeyCall(ms[i + k].key)] + Emit(ms[i + k].value));
    assert ss[1..] == seq(|ms| - (i + 1), k requires 0 <= k < |ms| - (i + 1) => [KeyCall(ms[i + 1 + k].key)] + Emit(ms[i + 1 + k].value));
  }

  lemma EmitShape(d: Doc)
    ensures d.ArrayDoc? ==> Emit(d) == [StartArrayCall] + ItemCalls(d.items, 0) + [EndArrayCall]
    ensures d.DictDoc? ==> Emit(d) == [StartDictCall] + MemberCalls(d.members, 0) + [EndDictCall]
  {
    if d.ArrayDoc? {
      assert seq(|d.items|, k requires 0 <= k < |d.items| => Emit(d.items[k]))
          == seq(|d.items| - 0, k requires 0 <= k < |d.items| - 0 => Emit(d.items[0 + k]));
    }
    if d.DictDoc? {
      assert seq(|d.members|, k requires 0 <= k < |d.members| => [KeyCall(d.members[k].key)] + Emit(d.members[k].value))
          == seq(|d.members| - 0, k requires 0 <= k < |d.members| - 0 => [KeyCall(d.members[0 + k].key)] + Emit(d.members[0 + k].value));
    }
  }

  /** The array node of the first `i` items. */
  function ItemsPrefix(items: seq<Doc>, i: nat): Node
    requires i <= |items|
  {
    Array(seq(i, k requires 0 <= k < i => ToNode(items[k])))
  }

  /** The dictionary node of the first `i` members. */
  function MembersPrefix(ms: seq<Member>, i: nat): Node
    requires i <= |ms|
  {
    Dict(Entries(seq(i, k requires 0 <= k < i => (ms[k].key, ToNode(ms[k].value)))))
  }

  /** The top of `b` is the open array at `p`, entered with no pending key. */
  ghost predicate InArray(b: Builder, p: Path) {
    Valid(b) && |b.stack| > 0 && b.stack[|b.stack| - 1] == p && Get(b.root, p).Some? && Get(b.root, p).value.Array? && !b.keyAdded
  }

  /** The top of `b` is the open dictionary at `p`, with no pending key. */
  ghost predicate InDict(b: Builder, p: Path) {
    Valid(b) && |b.stack| > 0 && b.stack[|b.stack| - 1] == p && Get(b.root, p).Some? && Get(b.root, p).value.Dict? && !b.keyAdded
  }

  /** The top of `b` is the fresh slot of the key just given. */
  ghost predicate InSlot(b: Builder, p: Path) {
    Valid(b) && |b.stack| > 0 && b.stack[|b.stack| - 1] == p && Get(b.root, p) == Some(Null) && b.keyAdded
  }

  /** A call, a chain of calls and a closing call, run one after the other. */
  lemma RunFrame(b: Builder, c: Command, inner: seq<Command>, e: Command)
    requires Apply(b, c).Success? && Run(Apply(b, c).value, inner).Success?
    ensures Run(b, [c] + inner + [e]) == Apply(Run(Apply(b, c).value, inner).value, e)
  {
    RunAppend(b, [c], inner + [e]);
    RunAppend(Apply(b, c).value, inner, [e]);
    assert [c] + inner + [e] == [c] + (inner + [e]);
  }

  lemma EmptyPrefixes(items: seq<Doc>, ms: seq<Member>)
    ensures ItemsPrefix(items, 0) == Array([])
    ensures MembersPrefix(ms, 0) == Dict(map[])
  {
    assert |ItemsPrefix(items, 0).items| == 0;
  }

  lemma FullPrefixes(d: Doc)
    ensures d.ArrayDoc? ==> ItemsPrefix(d.items, |d.items|) == ToNode(d)
    ensures d.DictDoc? ==> MembersPrefix(d.members, |d.members|) == ToNode(d)
  {
  }

  /** Closing the container just stored at the top. */
  lemma CloseTop(b: Builder, q: Path, t: Node, e: Command)
    requires |b.stack| > 0 && b.stack[|b.stack| - 1] == q && Get(b.root, q).Some?
    requires (e == EndArrayCall && t.Array?) || (e == EndDictCall && t.Dict?)
    ensures Apply(b.(root := Set(b.root, q, t)), e) == Success(b.(root := Set(b.root, q, t), stack := Pop(b.stack)))
  {
    SetHere(b.root, q, t);
  }

  /** Building a document inside an open array appends it as the last
      element and leaves the builder in that array. */
  lemma {:induction false} EmitInArray(b: Builder, p: Path, d: Doc)
    requires InArray(b, p) && WellKeyed(d)
    ensures Run(b, Emit(d)) == Success(b.(root := Set(b.root, p, Array(Get(b.root, p).value.items + [ToNode(d)]))))
    decreases d, 3, 0, 0
  {
    if d.Leaf? {
      var xs := Get(b.root, p).value.items;
      assert Emit(d) == [ValueCall(d.value)];
      assert Value(b, d.value) == Success(b.(root := Set(b.root, p, Array(xs + [d.value]))));
    } else {
      ContainerInArray(b, p, d);
    }
  }

  lemma {:induction false} ContainerInArray(b: Builder, p: Path, d: Doc)
    requires InArray(b, p) && WellKeyed(d) && !d.Leaf?
    ensures Run(b, Emit(d)) == Success(b.(root := Set(b.root, p, Array(Get(b.root, p).value.items + [ToNode(d)]))))
    decreases d, 2, 0, 0
  {
    var xs := Get(b.root, p).value.items;
    var n := |xs|;
    var q := p + [Idx(n)];
    var t := ToNode(d);
    var empty := if d.ArrayDoc? then Array([]) else Dict(map[]);
    var grown := Array(xs + [empty]);
    var b1 := Start(b, empty).value;
    assert b1 == b.(root := Set(b.root, p, grown), stack := b.stack + [q]);
    StartValid(b, empty);
    GetSet(b.root, p, [Idx(n)], grown);
    assert Get(grown, [Idx(n)]) == Some(empty);
    OpenedContainer(b, b1, q, d);
    assert Pop(b1.stack) == b.stack;
    SetSet(b.root, p, [Idx(n)], grown, t);
    assert Set(grown, [Idx(n)], t) == Array(xs + [t]) by {
      assert Set(empty, [], t) == t;
      assert grown.items[n := t] == xs + [t];
    }
  }

  /** The rest of a container's calls once its opening call has made `b1`,
      with the new empty container at `q` on top. */
  lemma {:induction false} OpenedContainer(b: Builder, b1: Builder, q: Path, d: Doc)
    requires WellKeyed(d) && !d.Leaf?
    requires Start(b, if d.ArrayDoc? then Array([]) else Dict(map[])) == Success(b1)
    requires Valid(b1) && |b1.stack| > 0 && b1.stack[|b1.stack| - 1] == q && !b1.keyAdded
    requires Get(b1.root, q) == Some(if d.ArrayDoc? then Array([]) else Dict(map[]))
    ensures Run(b, Emit(d)) == Success(b1.(root := Set(b1.root, q, ToNode(d)), stack := Pop(b1.stack)))
    decreases d, 1, 0, 0
  {
    EmitShape(d);
    EmptyPrefixes(if d.ArrayDoc? then d.items else [], if d.DictDoc? then d.members else []);
    FullPrefixes(d);
    if d.ArrayDoc? {
      ItemsIn(b1, q, d, 0);
      CloseTop(b1, q, ToNode(d), EndArrayCall);
      RunFrame(b, StartArrayCall, ItemCalls(d.items, 0), EndArrayCall);
    } else {
      MembersIn(b1, q, d, 0);
      CloseTop(b1, q, ToNode(d), EndDictCall);
      RunFrame(b, StartDictCall, MemberCalls(d.members, 0), EndDictCall);
    }
  }

  /** Building a document in the slot of a fresh key stores it there and
      returns to the dictionary. */
  lemma {:induction false} EmitInSlot(b: Builder, p: Path, d: Doc)
    requires InSlot(b, p) && WellKeyed(d)
    ensures Run(b, Emit(d)) == Success(b.(root := Set(b.root, p, ToNode(d)), stack := Pop(b.stack), keyAdded := false))
    decreases d, 3, 0, 0
  {
    if d.Leaf? {
      assert Emit(d) == [ValueCall(d.value)];
      assert Value(b, d.value) == Success(b.(root := Set(b.root, p, d.value), stack := Pop(b.stack), keyAdded := false));
    } else {
      ContainerInSlot(b, p, d);
    }
  }

  lemma {:induction false} ContainerInSlot(b: Builder, p: Path, d: Doc)
    requires InSlot(b, p) && WellKeyed(d) && !d.Leaf?
    ensures Run(b, Emit(d)) == Success(b.(root := Set(b.root, p, ToNode(d)), stack := Pop(b.stack), keyAdded := false))
    decreases d, 2, 0, 0
  {
    var empty := if d.ArrayDoc? then Array([]) else Dict(map[]);
    var b1 := Start(b, empty).value;
    assert b1 == b.(root := Set(b.root, p, empty), keyAdded := false);
    StartValid(b, empty);
    SetHere(b.root, p, empty);
    OpenedContainer(b, b1, p, d);
    SetSame(b.root, p, empty, ToNode(d));
  }

  /** The items from `i` on, built into the open array at `p` that already
      holds the first `i`. */
  lemma {:induction false} ItemsIn(b: Builder, p: Path, d: Doc, i: nat)
    requires d.ArrayDoc? && WellKeyed(d) && i <= |d.items|
    requires InArray(b, p) && Get(b.root, p) == Some(ItemsPrefix(d.items, i))
    ensures Run(b, ItemCalls(d.items, i)) == Success(b.(root := Set(b.root, p, ItemsPrefix(d.items, |d.items|))))
    ensures Get(Set(b.root, p, ItemsPrefix(d.items, |d.items|)), p) == Some(ItemsPrefix(d.items, |d.items|))
    decreases d, 0, |d.items| - i, 0
  {
    var items := d.items;
    SetHere(b.root, p, ItemsPrefix(items, |items|));
    if i == |items| {
      assert ItemCalls(items, i) == [];
      assert Set(b.root, p, ItemsPrefix(items, i)) == b.root by {
        SetGetSame(b.root, p);
      }
    } else {
      ItemCallsStep(items, i);
      EmitInArray(b, p, items[i]);
      var b1 := b.(root := Set(b.root, p, Array(ItemsPrefix(items, i).items + [ToNode(items[i])])));
      assert Array(ItemsPrefix(items, i).items + [ToNode(items[i])]) == ItemsPrefix(items, i + 1);
      SetTopValid(b, ItemsPrefix(items, i + 1));
      SetHere(b.root, p, ItemsPrefix(items, i + 1));
      ItemsIn(b1, p, d, i + 1);
      RunAppend(b, Emit(items[i]), ItemCalls(items, i + 1));
      SetSame(b.root, p, ItemsPrefix(items, i + 1), ItemsPrefix(items, |items|));
    }
  }

  lemma EntriesFresh(ps: seq<(string, Node)>, k: string, v: Node)
    requires forall i :: 0 <= i < |ps| ==> ps[i].0 != k
    ensures k !in Entries(ps)
    ensures Entries(ps + [(k, v)]) == Entries(ps)[k := v]
  {
    EntriesAbsent(ps, k);
    var qs := ps + [(k, v)];
    assert qs[..|qs| - 1] == ps;
    assert qs[|qs| - 1] == (k, v);
  }

  lemma {:induction false} EntriesAbsent(ps: seq<(string, Node)>, k: string)
    requires forall i :: 0 <= i < |ps| ==> ps[i].0 != k
    ensures k !in Entries(ps)
  {
    if |ps| > 0 {
      var prefix := ps[..|ps| - 1];
      assert forall i :: 0 <= i < |prefix| ==> prefix[i] == ps[i];
      EntriesAbsent(prefix, k);
    }
  }

  /** Member `i` (a key not given before, then its value) added to the open
      dictionary at `p` that holds the members before it. */
  lemma {:induction false} MemberStep(b: Builder, p: Path, d: Doc, i: nat)
    requires d.DictDoc? && WellKeyed(d) && i < |d.members|
    requires InDict(b, p) && Get(b.root, p) == Some(MembersPrefix(d.members, i))
    ensures Run(b, [KeyCall(d.members[i].key)] + Emit(d.members[i].value)) == Success(b.(root := Set(b.root, p, MembersPrefix(d.members, i + 1))))
    decreases d, 0, |d.members| - i, 0
  {
    var ms := d.members;
    var key := ms[i].key;
    var v := ToNode(ms[i].value);
    var m := MembersPrefix(ms, i).entries;
    MembersPrefixStep(ms, i);
    var open := Dict(m[key := Null]);
    var slot := p + [Field(key)];
    var b1 := Key(b, key).value;
    assert b1 == b.(root := Set(b.root, p, open), stack := b.stack + [slot], keyAdded := true);
    ApplyValid(b, KeyCall(key));
    GetSet(b.root, p, [Field(key)], open);
    EmitInSlot(b1, slot, ms[i].value);
    RunAppend(b, [KeyCall(key)], Emit(ms[i].value));
    SetSet(b.root, p, [Field(key)], open, v);
    assert open.entries[key := v] == m[key := v];
    assert Pop(b1.stack) == b.stack;
  }

  /** The next member of a dictionary with distinct keys adds a fresh key. */
  lemma MembersPrefixStep(ms: seq<Member>, i: nat)
    requires i < |ms| && forall j, k :: 0 <= j < k < |ms| ==> ms[j].key != ms[k].key
    ensures ms[i].key !in MembersPrefix(ms, i).entries
    ensures MembersPrefix(ms, i + 1) == Dict(MembersPrefix(ms, i).entries[ms[i].key := ToNode(ms[i].value)])
  {
    var ps := seq(i, k requires 0 <= k < i => (ms[k].key, ToNode(ms[k].value)));
    EntriesFresh(ps, ms[i].key, ToNode(ms[i].value));
    assert ps + [(ms[i].key, ToNode(ms[i].value))] == seq(i + 1, k requires 0 <= k < i + 1 => (ms[k].key, ToNode(ms[k].value)));
  }

  /** The members from `i` on, built into the open dictionary at `p` that
      already holds the first `i`. */
  lemma {:induction false} MembersIn(b: Builder, p: Path, d: Doc, i: nat)
    requires d.DictDoc? && WellKeyed(d) && i <= |d.members|
    requires InDict(b, p) && Get(b.root, p) == Some(MembersPrefix(d.members, i))
    ensures Run(b, MemberCalls(d.members, i)) == Success(b.(root := Set(b.root, p, MembersPrefix(d.members, |d.members|))))
    decreases d, 0, |d.members| - i, 1
  {
    var ms := d.members;
    if i == |ms| {
      assert MemberCalls(ms, i) == [];
      assert Set(b.root, p, MembersPrefix(ms, i)) == b.root by {
        SetGetSame(b.root, p);
      }
    } else {
      MemberCallsStep(ms, i);
      MemberStep(b, p, d, i);
      var filled := MembersPrefix(ms, i + 1);
      var b2 := b.(root := Set(b.root, p, filled));
      SetTopValid(b, filled);
      SetHere(b.root, p, filled);
      MembersIn(b2, p, d, i + 1);
      RunAppend(b, [KeyCall(ms[i].key)] + Emit(ms[i].value), MemberCalls(ms, i + 1));
      SetSame(b.root, p, filled, MembersPrefix(ms, |ms|));
    }
  }

  /** The calls a document emits, made on a fresh builder, build exactly that
      document. */
  lemma BuildEmitted(d: Doc)
    requires WellKeyed(d)
    ensures Run(Fresh, Emit(d)).Success?
    ensures Build(Run(Fresh, Emit(d)).value) == Success(ToNode(d))
  {
    if d.Leaf? {
      assert Emit(d) == [ValueCall(d.value)];
      assert Run(Fresh, Emit(d)) == Success(Builder(d.value, [[]], false, true));
    } else {
      var empty := if d.ArrayDoc? then Array([]) else Dict(map[]);
      var b1 := Start(Fresh, empty).value;
      assert b1 == Builder(empty, [[]], false, false);
      StartValid(Fresh, empty);
      OpenedContainer(Fresh, b1, [], d);
      assert Run(Fresh, Emit(d)) == Success(Builder(ToNode(d), [], false, false));
    }
  }

  // -------------------------------------------------------------- quirks

  /** Nothing built yet: `Build` throws. */
  lemma BuildFresh()
    ensures Build(Fresh) == Failure(LogicError)
  {
  }

  /** A second root value is rejected, unless the first was an array, which
      then takes the second as its element. */
  lemma SecondRootValue(v: Node, w: Node)
    ensures Run(Fresh, [ValueCall(v), ValueCall(w)]).Failure? <==> !v.Array?
    ensures v.Array? ==>
      Run(Fresh, [ValueCall(v), ValueCall(w)]) == Success(Builder(Array(v.items + [w]), [[]], false, true))
  {
    var b1 := Value(Fresh, v).value;
    assert b1 == Builder(v, [[]], false, true);
    assert Run(Fresh, [ValueCall(v), ValueCall(w)]) == Run(b1, [ValueCall(w)]);
    assert Run(b1, [ValueCall(w)]) == (var b2 :- Value(b1, w); Run(b2, []));
  }

  /** Giving a key again selects its existing entry: if that entry is not an
      array, the next value replaces it; if it is an array, the value is
      appended to it and the key stays pending. */
  lemma ReusedKey(b: Builder, key: string, v: Node)
    requires |b.stack| > 0
    requires InDict(b, b.stack[|b.stack| - 1])
    requires key in Get(b.root, b.stack[|b.stack| - 1]).value.entries
    ensures var p := b.stack[|b.stack| - 1];
      var prior := Get(b.root, p).value.entries[key];
      var b1 := Key(b, key).value;
      && b1 == b.(stack := b.stack + [p + [Field(key)]], keyAdded := true)
      && (prior.Array? ==> Value(b1, v) == Success(b1.(root := Set(b.root, p + [Field(key)], Array(prior.items + [v])))))
      && (!prior.Array? ==> Value(b1, v) == Success(b.(root := Set(b.root, p + [Field(key)], v))))
  {
    var p := b.stack[|b.stack| - 1];
    var top := Get(b.root, p).value;
    GetSet(b.root, p, [Field(key)], top);
    SetGetSame(b.root, p);
    var b1 := Key(b, key).value;
    assert Get(b1.root, p + [Field(key)]) == Some(top.entries[key]);
  }
}
