/** Strings in `std::less<std::string>` order and the sorted, duplicate-free
    sequences that `std::set<std::string_view>` and `std::map` iterate. */
module Ordered {

  /** Lexicographic order on character codes. */
  predicate Less(a: string, b: string)
    decreases |a|
  {
    if |a| == 0 then |b| > 0
    else if |b| == 0 then false
    else a[0] < b[0] || (a[0] == b[0] && Less(a[1..], b[1..]))
  }

  lemma {:induction false} LessIrreflexive(a: string)
    ensures !Less(a, a)
  {
    if |a| > 0 {
      LessIrreflexive(a[1..]);
    }
  }

  lemma {:induction false} LessTransitive(a: string, b: string, c: string)
    requires Less(a, b) && Less(b, c)
    ensures Less(a, c)
    decreases |a|
  {
    if |a| > 0 && a[0] == b[0] && b[0] == c[0] {
      LessTransitive(a[1..], b[1..], c[1..]);
    }
  }

  lemma {:induction false} LessTotal(a: string, b: string)
    ensures a == b || Less(a, b) || Less(b, a)
    decreases |a|
  {
    if |a| > 0 && |b| > 0 && a[0] == b[0] {
      LessTotal(a[1..], b[1..]);
      if a[1..] == b[1..] {
        assert a == [a[0]] + a[1..] && b == [b[0]] + b[1..];
      }
    }
  }

  /** Strictly ascending: sorted and free of duplicates. */
  predicate StrictlySorted(s: seq<string>) {
    forall i, j :: 0 <= i < j < |s| ==> Less(s[i], s[j])
  }

  /** No string occurs twice. */
  predicate Distinct(s: seq<string>) {
    forall i, j :: 0 <= i < j < |s| ==> s[i] != s[j]
  }

  /** `std::set::insert`: `x` goes to its ordered place unless already present. */
  function Insert(s: seq<string>, x: string): (r: seq<string>)
    ensures forall y :: y in r <==> y in s || y == x
  {
    if |s| == 0 then [x]
    else if x == s[0] then s
    else if Less(x, s[0]) then [x] + s
    else
      var rest := Insert(s[1..], x);
      assert forall y :: y in s <==> y == s[0] || y in s[1..];
      [s[0]] + rest
  }

  lemma {:induction false} InsertSorted(s: seq<string>, x: string)
    requires StrictlySorted(s)
    ensures StrictlySorted(Insert(s, x))
    ensures x in s ==> Insert(s, x) == s
  {
    if |s| == 0 || x == s[0] {
    } else if Less(x, s[0]) {
      InsertFront(s, x);
    } else {
      LessTotal(x, s[0]);
      var tail := s[1..];
      TailSorted(s);
      InsertSorted(tail, x);
      ConsSorted(s[0], Insert(tail, x));
      if x in s {
        assert x in tail;
        assert s == [s[0]] + tail;
      }
    }
  }

  /** The tail of a strictly ascending sequence is strictly ascending and
      above its head. */
  lemma TailSorted(s: seq<string>)
    requires StrictlySorted(s) && |s| > 0
    ensures StrictlySorted(s[1..])
    ensures forall y :: y in s[1..] ==> Less(s[0], y)
  {
    var tail := s[1..];
    forall i, j | 0 <= i < j < |tail| ensures Less(tail[i], tail[j]) {
      assert tail[i] == s[i + 1] && tail[j] == s[j + 1];
    }
    forall y | y in tail ensures Less(s[0], y) {
      var k :| 0 <= k < |tail| && tail[k] == y;
      assert s[k + 1] == y;
    }
  }

  lemma InsertFront(s: seq<string>, x: string)
    requires StrictlySorted(s) && |s| > 0 && Less(x, s[0])
    ensures StrictlySorted([x] + s) && x !in s
  {
    forall y | y in s ensures Less(x, y) {
      var k :| 0 <= k < |s| && s[k] == y;
      if k > 0 {
        LessTransitive(x, s[0], y);
      }
    }
    ConsSorted(x, s);
    LessIrreflexive(x);
  }

  lemma ConsSorted(x: string, s: seq<string>)
    requires StrictlySorted(s)
    requires forall y :: y in s ==> Less(x, y)
    ensures StrictlySorted([x] + s)
  {
    var r := [x] + s;
    forall i, j | 0 <= i < j < |r| ensures Less(r[i], r[j]) {
      assert r[j] == s[j - 1];
      if i > 0 {
        assert r[i] == s[i - 1];
      } else {
        assert s[j - 1] in s;
      }
    }
  }

  /** Inserting the strings of `xs` one by one, as a `std::set` or the keys
      of a `std::map` are filled. */
  function InsertAll(s: seq<string>, xs: seq<string>): (r: seq<string>)
    ensures forall y :: y in r <==> y in s || y in xs
    decreases |xs|
  {
    if |xs| == 0 then s else InsertAll(Insert(s, xs[0]), xs[1..])
  }

  lemma {:induction false} InsertAllSorted(s: seq<string>, xs: seq<string>)
    requires StrictlySorted(s)
    ensures StrictlySorted(InsertAll(s, xs))
    decreases |xs|
  {
    if |xs| > 0 {
      InsertSorted(s, xs[0]);
      InsertAllSorted(Insert(s, xs[0]), xs[1..]);
    }
  }

  lemma {:induction false} StrictlySortedUnique(s: seq<string>, t: seq<string>)
    requires StrictlySorted(s) && StrictlySorted(t)
    requires forall y :: y in s <==> y in t
    ensures s == t
  {
    assert |s| > 0 ==> s[0] in t;
    assert |t| > 0 ==> t[0] in s;
    if |s| > 0 && |t| > 0 {
      var k :| 0 <= k < |t| && t[k] == s[0];
      var m :| 0 <= m < |s| && s[m] == t[0];
      if k > 0 && m > 0 {
        LessTransitive(s[0], t[0], s[0]);
        LessIrreflexive(s[0]);
      }
      assert s[0] == t[0];
      forall y ensures y in s[1..] <==> y in t[1..] {
        if y in s[1..] {
          var k :| 0 <= k < |s[1..]| && s[1..][k] == y;
          assert s[k + 1] == y && Less(s[0], y);
          LessIrreflexive(y);
          assert y in t && y != t[0];
          var m :| 0 <= m < |t| && t[m] == y;
          assert t[1..][m - 1] == y;
        }
        if y in t[1..] {
          var k :| 0 <= k < |t[1..]| && t[1..][k] == y;
          assert t[k + 1] == y && Less(t[0], y);
          LessIrreflexive(y);
          assert y in s && y != s[0];
          var m :| 0 <= m < |s| && s[m] == y;
          assert s[1..][m - 1] == y;
        }
      }
      StrictlySortedUnique(s[1..], t[1..]);
      assert s == [s[0]] + s[1..] && t == [t[0]] + t[1..];
    }
  }
}
