/** Code-point order on strings, and sorting without duplicates by a string key. */
module Ordering {

  /** Strict lexicographic order, as Python compares strings. */
  predicate Less(a: string, b: string) {
    b != [] && (a == [] || a[0] < b[0] || (a[0] == b[0] && Less(a[1..], b[1..])))
  }

  lemma {:induction false} LessIrreflexive(a: string)
    ensures !Less(a, a)
  {
    if a != [] {
      LessIrreflexive(a[1..]);
    }
  }

  lemma {:induction false} LessTransitive(a: string, b: string, c: string)
    requires Less(a, b) && Less(b, c)
    ensures Less(a, c)
  {
    if a != [] && a[0] == b[0] == c[0] {
      LessTransitive(a[1..], b[1..], c[1..]);
    }
  }

  lemma {:induction false} LessTotal(a: string, b: string)
    ensures a == b || Less(a, b) || Less(b, a)
  {
    if a != [] && b != [] && a[0] == b[0] {
      LessTotal(a[1..], b[1..]);
      assert a == [a[0]] + a[1..] && b == [b[0]] + b[1..];
    }
  }

  lemma LessAsymmetric(a: string, b: string)
    requires Less(a, b)
    ensures !Less(b, a)
  {
    if Less(b, a) {
      LessTransitive(a, b, a);
      LessIrreflexive(a);
    }
  }

  /** Strings with heads of equal length compare head first. */
  lemma {:induction false} LessConcat(a: string, x: string, b: string, y: string)
    requires |a| == |b|
    ensures Less(a + x, b + y) <==> Less(a, b) || (a == b && Less(x, y))
  {
    if a == [] {
      assert a + x == x && b + y == y;
    } else {
      LessConcat(a[1..], x, b[1..], y);
      assert (a + x)[1..] == a[1..] + x && (b + y)[1..] == b[1..] + y;
      assert a == [a[0]] + a[1..] && b == [b[0]] + b[1..];
    }
  }

  /** No value occurs twice. */
  predicate Distinct<T(==)>(s: seq<T>) {
    forall i, j :: 0 <= i < j < |s| ==> s[i] != s[j]
  }

  lemma DistinctConcat<T>(a: seq<T>, b: seq<T>)
    ensures Distinct(a + b) <==> Distinct(a) && Distinct(b) && forall x :: x in a ==> x !in b
  {
    var s := a + b;
    if Distinct(s) {
      forall i, j | 0 <= i < j < |b|
        ensures b[i] != b[j]
      {
        assert s[|a| + i] == b[i] && s[|a| + j] == b[j];
      }
      forall i, j | 0 <= i < j < |a|
        ensures a[i] != a[j]
      {
        assert s[i] == a[i] && s[j] == a[j];
      }
      forall x | x in a
        ensures x !in b
      {
        var j :| 0 <= j < |a| && a[j] == x;
        forall k | 0 <= k < |b|
          ensures b[k] != x
        {
          assert s[j] == a[j] && s[|a| + k] == b[k];
        }
      }
    } else {
      var i, j :| 0 <= i < j < |s| && s[i] == s[j];
      assert i < |a| ==> s[i] == a[i] && a[i] in a;
      assert j >= |a| ==> s[j] == b[j - |a|] && b[j - |a|] in b;
      assert i >= |a| ==> s[i] == b[i - |a|];
      assert j < |a| ==> s[j] == a[j];
    }
  }

  lemma {:induction false} DistinctCounts<T>(s: seq<T>)
    ensures Distinct(s) <==> forall x :: multiset(s)[x] <= 1
  {
    if s != [] {
      var rest := s[1..];
      assert s == [s[0]] + rest;
      DistinctCounts(rest);
      DistinctConcat([s[0]], rest);
      assert forall x :: multiset(s)[x] == multiset(rest)[x] + (if x == s[0] then 1 else 0);
      assert s[0] in rest <==> multiset(rest)[s[0]] > 0;
      assert Distinct([s[0]]) && forall x :: x in [s[0]] <==> x == s[0];
      assert Distinct(s) <==> Distinct(rest) && s[0] !in rest;
    }
  }

  /** Rearranging a list keeps its values distinct. */
  lemma DistinctPermutation<T>(a: seq<T>, b: seq<T>)
    requires multiset(a) == multiset(b)
    ensures Distinct(a) <==> Distinct(b)
  {
    DistinctCounts(a);
    DistinctCounts(b);
  }

  // ---- Sorting -------------------------------------------------------------

  /** Keeps equal keys in their old order: `x` goes before everything not below it. */
  function InsertBy<T>(x: T, s: seq<T>, key: T -> string): seq<T> {
    if s == [] || !Less(key(s[0]), key(x)) then [x] + s else [s[0]] + InsertBy(x, s[1..], key)
  }

  /** Stable sort by key. */
  function SortBy<T>(s: seq<T>, key: T -> string): seq<T> {
    if s == [] then [] else InsertBy(s[0], SortBy(s[1..], key), key)
  }

  ghost predicate StrictlySorted<T>(s: seq<T>, key: T -> string) {
    forall i, j :: 0 <= i < j < |s| ==> Less(key(s[i]), key(s[j]))
  }

  ghost predicate Sorted<T>(s: seq<T>, key: T -> string) {
    forall i, j :: 0 <= i < j < |s| ==> !Less(key(s[j]), key(s[i]))
  }

  ghost predicate Injective<T(!new)>(key: T -> string) {
    forall x, y :: key(x) == key(y) ==> x == y
  }

  lemma {:induction false} InsertBySame<T>(x: T, s: seq<T>, key: T -> string)
    ensures multiset(InsertBy(x, s, key)) == multiset(s) + multiset{x}
  {
    if s != [] && Less(key(s[0]), key(x)) {
      InsertBySame(x, s[1..], key);
      assert s == [s[0]] + s[1..];
    }
  }

  /** Sorting neither adds nor drops anything. */
  lemma {:induction false} SortBySame<T>(s: seq<T>, key: T -> string)
    ensures multiset(SortBy(s, key)) == multiset(s)
    ensures |SortBy(s, key)| == |s|
  {
    if s != [] {
      SortBySame(s[1..], key);
      InsertBySame(s[0], SortBy(s[1..], key), key);
      assert s == [s[0]] + s[1..];
      assert |multiset(SortBy(s, key))| == |multiset(s)|;
    }
  }

  lemma SortByMembers<T>(s: seq<T>, key: T -> string)
    ensures forall x :: x in SortBy(s, key) <==> x in s
  {
    SortBySame(s, key);
    forall x
      ensures x in SortBy(s, key) <==> x in s
    {
      assert x in multiset(s) <==> x in multiset(SortBy(s, key));
    }
  }

  lemma {:induction false} InsertBySorted<T>(x: T, s: seq<T>, key: T -> string)
    requires Sorted(s, key)
    ensures Sorted(InsertBy(x, s, key), key)
  {
    var r := InsertBy(x, s, key);
    if s == [] {
    } else if !Less(key(s[0]), key(x)) {
      forall j | 1 <= j < |r|
        ensures !Less(key(r[j]), key(x))
      {
        if Less(key(s[j - 1]), key(x)) {
          LessTotal(key(s[0]), key(s[j - 1]));
          if Less(key(s[0]), key(s[j - 1])) {
            LessTransitive(key(s[0]), key(s[j - 1]), key(x));
          }
        }
      }
    } else {
      InsertBySorted(x, s[1..], key);
      var t := InsertBy(x, s[1..], key);
      InsertBySame(x, s[1..], key);
      forall j | 0 <= j < |t|
        ensures !Less(key(t[j]), key(s[0]))
      {
        assert t[j] in multiset(t);
        if t[j] in s[1..] {
          var k :| 0 <= k < |s[1..]| && s[1..][k] == t[j];
          assert s[k + 1] == t[j];
        } else {
          assert t[j] == x;
          LessAsymmetric(key(s[0]), key(x));
        }
      }
    }
  }

  lemma {:induction false} SortBySorted<T>(s: seq<T>, key: T -> string)
    ensures Sorted(SortBy(s, key), key)
  {
    if s != [] {
      SortBySorted(s[1..], key);
      InsertBySorted(s[0], SortBy(s[1..], key), key);
    }
  }

  // ---- Sorting without duplicates ------------------------------------------

  function InsertUnique<T>(x: T, s: seq<T>, key: T -> string): seq<T> {
    if s == [] || Less(key(x), key(s[0])) then [x] + s
    else if key(x) == key(s[0]) then [x] + s[1..]
    else [s[0]] + InsertUnique(x, s[1..], key)
  }

  /** One value for each key, the first one, in key order. */
  function Unique<T>(values: seq<T>, key: T -> string): (r: seq<T>)
    ensures values != [] ==> r != []
  {
    if values == [] then [] else InsertUnique(values[0], Unique(values[1..], key), key)
  }

  lemma {:induction false} InsertUniqueSpec<T(!new)>(x: T, s: seq<T>, key: T -> string)
    requires Injective(key) && StrictlySorted(s, key)
    ensures StrictlySorted(InsertUnique(x, s, key), key)
    ensures forall y :: y in InsertUnique(x, s, key) <==> y == x || y in s
  {
    var r := InsertUnique(x, s, key);
    if s == [] {
    } else if Less(key(x), key(s[0])) {
      forall j | 0 <= j < |s|
        ensures Less(key(x), key(s[j]))
      {
        if j > 0 {
          LessTransitive(key(x), key(s[0]), key(s[j]));
        }
      }
    } else if key(x) == key(s[0]) {
      assert s == [s[0]] + s[1..];
    } else {
      LessTotal(key(x), key(s[0]));
      InsertUniqueSpec(x, s[1..], key);
      var t := InsertUnique(x, s[1..], key);
      forall j | 0 <= j < |t|
        ensures Less(key(s[0]), key(t[j]))
      {
        assert t[j] in t;
        if t[j] != x {
          var k :| 0 <= k < |s[1..]| && s[1..][k] == t[j];
          assert s[k + 1] == t[j];
        }
      }
      assert s == [s[0]] + s[1..];
    }
  }

  lemma {:induction false} UniqueSpec<T(!new)>(values: seq<T>, key: T -> string)
    requires Injective(key)
    ensures StrictlySorted(Unique(values, key), key)
    ensures forall y :: y in Unique(values, key) <==> y in values
  {
    if values != [] {
      UniqueSpec(values[1..], key);
      InsertUniqueSpec(values[0], Unique(values[1..], key), key);
      assert values == [values[0]] + values[1..];
    }
  }

  /** A strictly sorted sequence is determined by its members. */
  lemma {:induction false} StrictlySortedIsSet<T(!new)>(a: seq<T>, b: seq<T>, key: T -> string)
    requires StrictlySorted(a, key) && StrictlySorted(b, key)
    requires forall x :: x in a <==> x in b
    ensures a == b
  {
    assert b != [] ==> b[0] in b;
    if a != [] {
      assert a[0] in a && a[0] in b && b[0] in a;
      SameHead(a, b, key);
      TailMembers(a, key);
      TailMembers(b, key);
      StrictlySortedIsSet(a[1..], b[1..], key);
      assert a == [a[0]] + a[1..] && b == [b[0]] + b[1..];
    }
  }

  lemma TailMembers<T(!new)>(a: seq<T>, key: T -> string)
    requires a != [] && StrictlySorted(a, key)
    ensures forall x :: x in a[1..] <==> x in a && x != a[0]
  {
    assert a == [a[0]] + a[1..];
    if a[0] in a[1..] {
      var k :| 0 <= k < |a[1..]| && a[1..][k] == a[0];
      assert a[k + 1] == a[0];
      LessIrreflexive(key(a[0]));
    }
  }

  lemma SameHead<T>(a: seq<T>, b: seq<T>, key: T -> string)
    requires a != [] && b != [] && StrictlySorted(a, key) && StrictlySorted(b, key)
    requires a[0] in b && b[0] in a
    ensures a[0] == b[0]
  {
    var i :| 0 <= i < |b| && b[i] == a[0];
    var j :| 0 <= j < |a| && a[j] == b[0];
    if i > 0 && j > 0 {
      LessAsymmetric(key(a[0]), key(b[0]));
    }
  }

  /** The result depends only on which values occur, not on their order or number. */
  lemma UniqueOfSameMembers<T(!new)>(a: seq<T>, b: seq<T>, key: T -> string)
    requires Injective(key)
    requires forall x :: x in a <==> x in b
    ensures Unique(a, key) == Unique(b, key)
  {
    UniqueSpec(a, key);
    UniqueSpec(b, key);
    StrictlySortedIsSet(Unique(a, key), Unique(b, key), key);
  }

  // ---- The dictionary that removes duplicates ------------------------------

  function Itself(s: string): string { s }

  /** Fills a dictionary in iteration order, then reads it in key order. */
  method UniqueByDictionary<T(!new)>(values: seq<T>, key: T -> string) returns (r: seq<T>)
    requires Injective(key)
    ensures r == Unique(values, key)
  {
    var keyed: map<string, T> := map[];
    var order: seq<string> := [];
    for i := 0 to |values|
      invariant forall k :: k in order <==> k in keyed
      invariant forall k :: k in keyed ==> key(keyed[k]) == k && keyed[k] in values[..i]
      invariant forall j :: 0 <= j < i ==> key(values[j]) in keyed
      invariant forall j, k :: 0 <= j < k < |order| ==> order[j] != order[k]
    {
      var k := key(values[i]);
      assert values[..i + 1] == values[..i] + [values[i]];
      if k !in keyed {
        keyed := keyed[k := values[i]];
        order := order + [k];
      }
    }
    assert values[..|values|] == values;
    var keys := SortBy(order, Itself);
    SortByMembers(order, Itself);
    r := seq(|keys|, i requires 0 <= i < |keys| => assert keys[i] in keys; keyed[keys[i]]);
    DistinctSort(order);
    forall x
      ensures x in r <==> x in values
    {
      if x in values {
        var i :| 0 <= i < |keys| && keys[i] == key(x);
        assert r[i] == keyed[key(x)];
      }
      if x in r {
        var i :| 0 <= i < |r| && r[i] == x;
        assert keys[i] in keys;
      }
    }
    forall i, j | 0 <= i < j < |r|
      ensures Less(key(r[i]), key(r[j]))
    {
      assert keys[i] in keys && keys[j] in keys;
      assert Less(Itself(keys[i]), Itself(keys[j]));
    }
    UniqueSpec(values, key);
    StrictlySortedIsSet(r, Unique(values, key), key);
  }

  lemma DistinctSort(order: seq<string>)
    requires forall j, k :: 0 <= j < k < |order| ==> order[j] != order[k]
    ensures StrictlySorted(SortBy(order, Itself), Itself)
  {
    var s := SortBy(order, Itself);
    SortBySorted(order, Itself);
    SortBySame(order, Itself);
    forall i, j | 0 <= i < j < |s|
      ensures Less(Itself(s[i]), Itself(s[j]))
    {
      LessTotal(s[i], s[j]);
      if s[i] == s[j] {
        TwoOccurrences(s, i, j);
        OneOccurrence(order, s[i]);
      }
    }
  }

  lemma TwoOccurrences(s: seq<string>, i: int, j: int)
    requires 0 <= i < j < |s| && s[i] == s[j]
    ensures multiset(s)[s[i]] >= 2
  {
    var head, tail := s[..i + 1], s[i + 1..];
    assert s == head + tail;
    assert head[i] in multiset(head) && tail[j - i - 1] in multiset(tail);
  }

  lemma {:induction false} OneOccurrence(s: seq<string>, x: string)
    requires forall j, k :: 0 <= j < k < |s| ==> s[j] != s[k]
    ensures multiset(s)[x] <= 1
  {
    if s != [] {
      assert s == [s[0]] + s[1..];
      OneOccurrence(s[1..], x);
      if x == s[0] {
        assert x !in s[1..];
        assert x !in multiset(s[1..]);
      }
    }
  }
}
