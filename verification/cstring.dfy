/** The pieces of `std::string_view` the line parsers use, with `size_t`
    arithmetic written out: positions are integers modulo 2^64 and a failed
    search returns `NPOS` (= 2^64 - 1), so `npos + 1` wraps to 0 exactly as it
    does in the source. */
module CString {
  import opened Wrappers

  const SIZE_MODULUS: int := 0x1_0000_0000_0000_0000
  type SizeT = x: int | 0 <= x < SIZE_MODULUS
  const NPOS: SizeT := SIZE_MODULUS - 1

  /** A string the C++ library can hold: shorter than `npos`. */
  predicate Fits(s: string) {
    |s| < NPOS
  }

  /** `a + b` on `size_t`: both are below 2^64, so at most one wrap. */
  function Add(a: SizeT, b: SizeT): SizeT {
    if a + b < SIZE_MODULUS then a + b else a + b - SIZE_MODULUS
  }

  lemma AddNoWrap(a: SizeT, b: SizeT)
    requires a + b < SIZE_MODULUS
    ensures Add(a, b) == a + b
  {
  }

  lemma SubNoWrap(a: SizeT, b: SizeT)
    requires b <= a
    ensures Sub(a, b) == a - b
  {
  }

  /** `a - b` on `size_t`. */
  function Sub(a: SizeT, b: SizeT): SizeT {
    if b <= a then a - b else a - b + SIZE_MODULUS
  }

  /** `s.find_first_not_of(c, pos)`. */
  function FindFirstNotOf(s: string, c: char, pos: SizeT): (r: SizeT)
    requires Fits(s)
    ensures r == NPOS || (pos <= r < |s| && s[r] != c)
    ensures forall i :: pos <= i < |s| && (r == NPOS || i < r) ==> s[i] == c
    decreases |s| - pos
  {
    if pos >= |s| then NPOS
    else if s[pos] != c then pos
    else FindFirstNotOf(s, c, pos + 1)
  }

  /** `s.find_first_of(chars, pos)`. */
  function FindFirstOf(s: string, chars: set<char>, pos: SizeT): (r: SizeT)
    requires Fits(s)
    ensures r == NPOS || (pos <= r < |s| && s[r] in chars)
    ensures forall i :: pos <= i < |s| && (r == NPOS || i < r) ==> s[i] !in chars
    decreases |s| - pos
  {
    if pos >= |s| then NPOS
    else if s[pos] in chars then pos
    else FindFirstOf(s, chars, pos + 1)
  }

  /** `s.find_last_not_of(c)`: the last index holding another character. */
  function FindLastNotOf(s: string, c: char): (r: SizeT)
    requires Fits(s)
    ensures r == NPOS || (r < |s| && s[r] != c)
    ensures forall i :: 0 <= i < |s| && (r == NPOS || r < i) ==> s[i] == c
  {
    if |s| == 0 then NPOS
    else if s[|s| - 1] != c then |s| - 1
    else FindLastNotOf(s[..|s| - 1], c)
  }

  /** `pattern` occurs in `s` starting at index `i`. */
  predicate OccursAt(s: string, pattern: string, i: int) {
    0 <= i && i + |pattern| <= |s| && s[i..i + |pattern|] == pattern
  }

  /** `s.find(pattern, pos)`. */
  function Find(s: string, pattern: string, pos: SizeT): (r: SizeT)
    requires Fits(s)
    ensures r == NPOS || (pos <= r && OccursAt(s, pattern, r))
    ensures forall i :: pos <= i && (r == NPOS || i < r) ==> !OccursAt(s, pattern, i)
    decreases |s| - pos
  {
    if pos + |pattern| > |s| then NPOS
    else if OccursAt(s, pattern, pos) then pos
    else Find(s, pattern, pos + 1)
  }

  /** `s.substr(pos, count)`: throws `out_of_range` past the end, clamps the count. */
  function Substr(s: string, pos: SizeT, count: SizeT): (r: Result<string>)
    ensures r.Failure? <==> pos > |s|
    ensures r.Failure? ==> r.error == OutOfRange
    ensures r.Success? ==> r.value == s[pos..if count < |s| - pos then pos + count else |s|]
  {
    if pos > |s| then Failure(OutOfRange)
    else if count < |s| - pos then Success(s[pos..pos + count])
    else Success(s[pos..])
  }

  /** Reference definition: `s` without its trailing spaces. */
  function TrimRight(s: string): string
  {
    if |s| > 0 && s[|s| - 1] == ' ' then TrimRight(s[..|s| - 1]) else s
  }

  lemma {:induction false} TrimRightShape(s: string)
    ensures |TrimRight(s)| <= |s| && TrimRight(s) == s[..|TrimRight(s)|]
    ensures |TrimRight(s)| == 0 || TrimRight(s)[|TrimRight(s)| - 1] != ' '
    ensures forall i :: |TrimRight(s)| <= i < |s| ==> s[i] == ' '
  {
    if |s| > 0 && s[|s| - 1] == ' ' {
      var p := s[..|s| - 1];
      TrimRightShape(p);
      assert TrimRight(s) == TrimRight(p);
    }
  }

  /** The trimming idiom of the parsers:
      `if (name.back() == ' ') name = name.substr(0, name.find_last_not_of(' ') + 1);`
      `back()` of an empty string is undefined behaviour. */
  function TrimBack(name: string): (r: Result<string>)
    requires Fits(name)
    ensures r.Failure? <==> |name| == 0
    ensures r.Failure? ==> r.error == Undefined
    ensures r.Success? ==> r.value == TrimRight(name)
  {
    if |name| == 0 then Failure(Undefined)
    else if name[|name| - 1] == ' ' then
      TrimBackAgrees(name);
      Substr(name, 0, Add(FindLastNotOf(name, ' '), 1))
    else Success(name)
  }

  lemma TrimBackAgrees(name: string)
    requires Fits(name) && |name| > 0 && name[|name| - 1] == ' '
    ensures Substr(name, 0, Add(FindLastNotOf(name, ' '), 1)) == Success(TrimRight(name))
  {
    var t := TrimRight(name);
    TrimRightShape(name);
    var r := FindLastNotOf(name, ' ');
    var n := Add(r, 1);
    assert |t| > 0 ==> name[|t| - 1] == t[|t| - 1];
    if r == NPOS {
      assert n == 0;
      assert |t| == 0;
    } else {
      assert n == r + 1;
      assert n == |t|;
    }
    assert Substr(name, 0, n) == Success(name[..n]);
  }

  /** `find_first_not_of` stops at the first other character. */
  lemma FindFirstNotOfAt(s: string, c: char, pos: SizeT, r: nat)
    requires Fits(s) && pos <= r < |s|
    requires forall i :: pos <= i < r ==> s[i] == c
    requires s[r] != c
    ensures FindFirstNotOf(s, c, pos) == r
  {
  }

  /** `find_last_not_of` finds the last character other than `c`. */
  lemma FindLastNotOfAt(s: string, c: char, r: nat)
    requires Fits(s) && r < |s| && s[r] != c
    requires forall i :: r < i < |s| ==> s[i] == c
    ensures FindLastNotOf(s, c) == r
  {
  }

  /** `find_first_of` stops at the first character of the set. */
  lemma FindFirstOfAt(s: string, chars: set<char>, pos: SizeT, r: nat)
    requires Fits(s) && pos <= r < |s|
    requires forall i :: pos <= i < r ==> s[i] !in chars
    requires s[r] in chars
    ensures FindFirstOf(s, chars, pos) == r
  {
  }

  /** `find_first_of` finds nothing when no character of the set follows. */
  lemma FindFirstOfNone(s: string, chars: set<char>, pos: SizeT)
    requires Fits(s)
    requires forall i :: pos <= i < |s| ==> s[i] !in chars
    ensures FindFirstOf(s, chars, pos) == NPOS
  {
  }

  /** `s.find_first_of(c)` finds something exactly when `c` occurs in `s`. */
  lemma FindFirstOfAny(s: string, c: char)
    requires Fits(s)
    ensures FindFirstOf(s, {c}, 0) != NPOS <==> c in s
  {
    var r := FindFirstOf(s, {c}, 0);
    if c in s {
      var i :| 0 <= i < |s| && s[i] == c;
      assert s[i] in {c};
    }
  }

  /** `find` stops at the first occurrence of the pattern. */
  lemma FindAt(s: string, pattern: string, pos: SizeT, r: nat)
    requires Fits(s) && pos <= r && OccursAt(s, pattern, r)
    requires forall i :: pos <= i < r ==> !OccursAt(s, pattern, i)
    ensures Find(s, pattern, pos) == r
    decreases r - pos
  {
    if pos < r {
      FindAt(s, pattern, pos + 1, r);
    }
  }

  /** The position of the first blank of `s` (`|s|` without one). */
  function BlankAt(s: string): (k: nat)
    ensures k <= |s| && (k < |s| ==> s[k] == ' ')
    ensures forall i :: 0 <= i < k ==> s[i] != ' '
  {
    if |s| == 0 || s[0] == ' ' then 0 else 1 + BlankAt(s[1..])
  }
}
