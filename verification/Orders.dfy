/** Total orders, the lexicographic order they lift to, and sorting. */
module Orders {
  import opened Prelude

  ghost predicate TotalOrder<T(!new)>(le: (T, T) -> bool) {
    && (forall a, b :: le(a, b) || le(b, a))
    && (forall a, b :: le(a, b) && le(b, a) ==> a == b)
    && (forall a, b, c :: le(a, b) && le(b, c) ==> le(a, c))
  }

  /** Sequences compare at their first difference; a proper prefix comes first. */
  predicate LexLe<T(==)>(le: (T, T) -> bool, a: seq<T>, b: seq<T>) {
    if a == [] then true
    else if b == [] then false
    else if a[0] == b[0] then LexLe(le, a[1..], b[1..])
    else le(a[0], b[0])
  }

  /** `a` and `b` agree up to position `k`, and there `a` ends or has the smaller element. */
  ghost predicate FirstDiffersAt<T>(le: (T, T) -> bool, a: seq<T>, b: seq<T>, k: nat) {
    && k <= |a| && k <= |b| && a[..k] == b[..k]
    && (k == |a| || (k < |b| && a[k] != b[k] && le(a[k], b[k])))
  }

  lemma LexCons<T>(le: (T, T) -> bool, x: T, s: seq<T>, y: T, t: seq<T>)
    ensures LexLe(le, [x] + s, [y] + t) <==> if x == y then LexLe(le, s, t) else le(x, y)
  {
    assert ([x] + s)[1..] == s && ([y] + t)[1..] == t;
  }

  lemma DiffersInRest<T>(le: (T, T) -> bool, a: seq<T>, b: seq<T>, k: nat)
    requires a != [] && b != [] && a[0] == b[0]
    ensures FirstDiffersAt(le, a, b, k + 1) <==> FirstDiffersAt(le, a[1..], b[1..], k)
  {
    if k + 1 <= |a| && k + 1 <= |b| {
      assert a[..k + 1] == [a[0]] + a[1..][..k] && b[..k + 1] == [b[0]] + b[1..][..k];
      assert a[..k + 1][1..] == a[1..][..k] && b[..k + 1][1..] == b[1..][..k];
    }
  }

  lemma DiffersAtFirst<T>(le: (T, T) -> bool, a: seq<T>, b: seq<T>, k: nat)
    requires a != [] && b != [] && a[0] != b[0] && k > 0
    ensures !FirstDiffersAt(le, a, b, k)
  {
    if k <= |a| && k <= |b| {
      assert a[..k][0] == a[0] && b[..k][0] == b[0];
    }
  }

  /** The recursive comparison is the comparison at the first difference. */
  lemma {:induction false} LexExact<T(!new)>(le: (T, T) -> bool, a: seq<T>, b: seq<T>)
    ensures LexLe(le, a, b) <==> exists k: nat :: FirstDiffersAt(le, a, b, k)
  {
    if a == [] {
      assert FirstDiffersAt(le, a, b, 0);
    } else if b != [] && a[0] != b[0] {
      assert le(a[0], b[0]) ==> FirstDiffersAt(le, a, b, 0);
      forall k: nat | k > 0 ensures !FirstDiffersAt(le, a, b, k) {
        DiffersAtFirst(le, a, b, k);
      }
    } else if b != [] {
      LexExact(le, a[1..], b[1..]);
      if k: nat :| FirstDiffersAt(le, a[1..], b[1..], k) {
        DiffersInRest(le, a, b, k);
      }
      if k: nat :| FirstDiffersAt(le, a, b, k) {
        DiffersInRest(le, a, b, k - 1);
      }
    }
  }

  lemma {:induction false} LexIsTotal<T(!new)>(le: (T, T) -> bool, a: seq<T>, b: seq<T>)
    requires TotalOrder(le)
    ensures LexLe(le, a, b) || LexLe(le, b, a)
  {
    if a != [] && b != [] {
      LexIsTotal(le, a[1..], b[1..]);
    }
  }

  lemma {:induction false} LexIsAntisymmetric<T(!new)>(le: (T, T) -> bool, a: seq<T>, b: seq<T>)
    requires TotalOrder(le) && LexLe(le, a, b) && LexLe(le, b, a)
    ensures a == b
  {
    if a != [] && b != [] && a[0] == b[0] {
      LexIsAntisymmetric(le, a[1..], b[1..]);
      assert a == [a[0]] + a[1..] && b == [b[0]] + b[1..];
    }
  }

  lemma {:induction false} LexIsTransitive<T(!new)>(le: (T, T) -> bool, a: seq<T>, b: seq<T>, c: seq<T>)
    requires TotalOrder(le) && LexLe(le, a, b) && LexLe(le, b, c)
    ensures LexLe(le, a, c)
  {
    if a != [] && a[0] == b[0] == c[0] {
      LexIsTransitive(le, a[1..], b[1..], c[1..]);
    }
  }

  /** A total order lifts to a total order of sequences. */
  lemma LexIsTotalOrder<T(!new)>(le: (T, T) -> bool)
    requires TotalOrder(le)
    ensures TotalOrder((a: seq<T>, b: seq<T>) => LexLe(le, a, b))
  {
    forall a, b ensures LexLe(le, a, b) || LexLe(le, b, a) {
      LexIsTotal(le, a, b);
    }
    forall a, b | LexLe(le, a, b) && LexLe(le, b, a) ensures a == b {
      LexIsAntisymmetric(le, a, b);
    }
    forall a, b, c | LexLe(le, a, b) && LexLe(le, b, c) ensures LexLe(le, a, c) {
      LexIsTransitive(le, a, b, c);
    }
  }

  /** Text by code point, as Python compares strings. */
  const CHAR_LE: (char, char) -> bool := (a, b) => a <= b
  const TEXT_LE: (string, string) -> bool := (a, b) => LexLe(CHAR_LE, a, b)

  lemma TextIsTotalOrder()
    ensures TotalOrder(TEXT_LE)
  {
    assert TotalOrder(CHAR_LE);
    LexIsTotalOrder(CHAR_LE);
  }

  // ----- Sorting a list -----

  ghost predicate SortedBy<T>(le: (T, T) -> bool, s: seq<T>) {
    forall i, j | 0 <= i < j < |s| :: le(s[i], s[j])
  }

  function Insert<T>(le: (T, T) -> bool, x: T, s: seq<T>): seq<T> {
    if s == [] || le(x, s[0]) then [x] + s else [s[0]] + Insert(le, x, s[1..])
  }

  function Sort<T>(le: (T, T) -> bool, s: seq<T>): seq<T> {
    if s == [] then [] else Insert(le, s[0], Sort(le, s[1..]))
  }

  lemma SortedCons<T(!new)>(le: (T, T) -> bool, x: T, s: seq<T>)
    requires SortedBy(le, s) && forall y | y in s :: le(x, y)
    ensures SortedBy(le, [x] + s)
  {
    var r := [x] + s;
    forall i, j | 0 <= i < j < |r| ensures le(r[i], r[j]) {
      assert r[j] == s[j - 1] && s[j - 1] in s;
      if i > 0 {
        assert r[i] == s[i - 1];
      }
    }
  }

  lemma FirstIsBefore<T(!new)>(le: (T, T) -> bool, x: T, s: seq<T>)
    requires TotalOrder(le) && SortedBy(le, s) && s != [] && le(x, s[0])
    ensures forall y | y in s :: le(x, y)
  {
    forall y | y in s ensures le(x, y) {
      var i :| 0 <= i < |s| && s[i] == y;
      assert i > 0 ==> le(s[0], s[i]);
    }
  }

  lemma {:induction false} InsertElements<T(!new)>(le: (T, T) -> bool, x: T, s: seq<T>)
    ensures multiset(Insert(le, x, s)) == multiset(s) + multiset{x}
    ensures forall y :: y in Insert(le, x, s) <==> y in s || y == x
  {
    if s != [] {
      assert s == [s[0]] + s[1..];
      if !le(x, s[0]) {
        InsertElements(le, x, s[1..]);
      }
    }
  }

  lemma {:induction false} InsertSorted<T(!new)>(le: (T, T) -> bool, x: T, s: seq<T>)
    requires TotalOrder(le) && SortedBy(le, s)
    ensures SortedBy(le, Insert(le, x, s))
  {
    if s != [] {
      if le(x, s[0]) {
        FirstIsBefore(le, x, s);
        SortedCons(le, x, s);
      } else {
        InsertSorted(le, x, s[1..]);
        InsertElements(le, x, s[1..]);
        FirstIsBefore(le, s[0], s);
        SortedCons(le, s[0], Insert(le, x, s[1..]));
      }
    }
  }

  lemma InsertFacts<T(!new)>(le: (T, T) -> bool, x: T, s: seq<T>)
    requires TotalOrder(le) && SortedBy(le, s)
    ensures SortedBy(le, Insert(le, x, s))
    ensures multiset(Insert(le, x, s)) == multiset(s) + multiset{x}
  {
    InsertSorted(le, x, s);
    InsertElements(le, x, s);
  }

  lemma {:induction false} SortFacts<T(!new)>(le: (T, T) -> bool, s: seq<T>)
    requires TotalOrder(le)
    ensures SortedBy(le, Sort(le, s))
    ensures multiset(Sort(le, s)) == multiset(s)
  {
    if s != [] {
      SortFacts(le, s[1..]);
      InsertFacts(le, s[0], Sort(le, s[1..]));
      assert s == [s[0]] + s[1..];
    }
  }

  /** A sorted list is determined by how often each element occurs. */
  lemma {:induction false} SortedIsUnique<T(!new)>(le: (T, T) -> bool, a: seq<T>, b: seq<T>)
    requires TotalOrder(le) && SortedBy(le, a) && SortedBy(le, b) && multiset(a) == multiset(b)
    ensures a == b
  {
    assert |multiset(a)| == |multiset(b)|;
    if a != [] {
      FirstIsLeast(le, a, b);
      FirstIsLeast(le, b, a);
      WithoutFirst(a);
      WithoutFirst(b);
      SortedIsUnique(le, a[1..], b[1..]);
      assert a == [a[0]] + a[1..] && b == [b[0]] + b[1..];
    }
  }

  lemma WithoutFirst<T>(s: seq<T>)
    requires s != []
    ensures multiset(s[1..]) == multiset(s) - multiset{s[0]}
  {
    assert s == [s[0]] + s[1..];
  }

  lemma FirstIsLeast<T(!new)>(le: (T, T) -> bool, a: seq<T>, b: seq<T>)
    requires TotalOrder(le) && SortedBy(le, a) && a != [] && b != [] && multiset(a) == multiset(b)
    ensures le(a[0], b[0])
  {
    assert b[0] in multiset(a);
  }

  /** Sorting forgets the order of its input. */
  lemma SortOfPermutation<T(!new)>(le: (T, T) -> bool, a: seq<T>, b: seq<T>)
    requires TotalOrder(le) && multiset(a) == multiset(b)
    ensures Sort(le, a) == Sort(le, b)
  {
    SortFacts(le, a);
    SortFacts(le, b);
    SortedIsUnique(le, Sort(le, a), Sort(le, b));
  }

  // ----- Sorting a set given as a list: `sorted(set(s))` -----

  function SortedSet<T(==)>(le: (T, T) -> bool, s: seq<T>): seq<T> {
    if s == [] then []
    else
      var rest := SortedSet(le, s[1..]);
      if s[0] in rest then rest else Insert(le, s[0], rest)
  }

  lemma {:induction false} SortedSetFacts<T(!new)>(le: (T, T) -> bool, s: seq<T>)
    requires TotalOrder(le)
    ensures SortedBy(le, SortedSet(le, s)) && Distinct(SortedSet(le, s))
    ensures forall x :: x in SortedSet(le, s) <==> x in s
  {
    if s != [] {
      SortedSetFacts(le, s[1..]);
      var rest := SortedSet(le, s[1..]);
      assert forall x :: x in s <==> x == s[0] || x in s[1..];
      if s[0] !in rest {
        InsertFacts(le, s[0], rest);
        InsertKeepsDistinct(le, s[0], rest);
        forall x ensures x in Insert(le, s[0], rest) <==> x == s[0] || x in rest {
          assert x in Insert(le, s[0], rest) <==> x in multiset(Insert(le, s[0], rest));
        }
      }
    }
  }

  lemma {:induction false} InsertKeepsDistinct<T(!new)>(le: (T, T) -> bool, x: T, s: seq<T>)
    requires Distinct(s) && x !in s
    ensures Distinct(Insert(le, x, s))
    ensures forall y :: y in Insert(le, x, s) <==> y == x || y in s
  {
    if s != [] && !le(x, s[0]) {
      InsertKeepsDistinct(le, x, s[1..]);
      assert forall y :: y in s <==> y == s[0] || y in s[1..];
      var r := Insert(le, x, s[1..]);
      forall i | 0 <= i < |r| ensures s[0] != r[i] {
        assert r[i] in r;
      }
    }
  }

  lemma SameFirst<T(!new)>(le: (T, T) -> bool, a: seq<T>, b: seq<T>)
    requires TotalOrder(le) && SortedBy(le, a) && SortedBy(le, b) && a != [] && b != [] && a[0] in b && b[0] in a
    ensures a[0] == b[0]
  {
    var i :| 0 <= i < |a| && a[i] == b[0];
    var j :| 0 <= j < |b| && b[j] == a[0];
    assert i > 0 ==> le(a[0], a[i]);
    assert j > 0 ==> le(b[0], b[j]);
  }

  lemma SameRest<T(!new)>(a: seq<T>, b: seq<T>)
    requires a != [] && b != [] && a[0] == b[0] && Distinct(a) && Distinct(b) && forall x :: x in a <==> x in b
    ensures forall x :: x in a[1..] <==> x in b[1..]
  {
    forall x ensures x in a[1..] <==> x in b[1..] {
      assert x in a <==> x == a[0] || x in a[1..];
      assert x in b <==> x == b[0] || x in b[1..];
    }
  }

  /** A sorted list without duplicates is determined by its elements. */
  lemma {:induction false} SortedSetIsUnique<T(!new)>(le: (T, T) -> bool, a: seq<T>, b: seq<T>)
    requires TotalOrder(le) && SortedBy(le, a) && SortedBy(le, b) && Distinct(a) && Distinct(b)
    requires forall x :: x in a <==> x in b
    ensures a == b
  {
    assert a != [] ==> a[0] in b;
    assert b != [] ==> b[0] in a;
    if a == [] {
      assert a == b;
    } else {
      SameFirst(le, a, b);
      SameRest(a, b);
      SortedSetIsUnique(le, a[1..], b[1..]);
      assert a == [a[0]] + a[1..] && b == [b[0]] + b[1..];
    }
  }

  /** `s == sorted(set(s))` says that the list is sorted and has no duplicates. */
  lemma EqualsSortedSetIff<T(!new)>(le: (T, T) -> bool, s: seq<T>)
    requires TotalOrder(le)
    ensures s == SortedSet(le, s) <==> SortedBy(le, s) && Distinct(s)
  {
    SortedSetFacts(le, s);
    if SortedBy(le, s) && Distinct(s) {
      SortedSetIsUnique(le, s, SortedSet(le, s));
    }
  }

  // ----- What a permutation keeps -----

  /** A relation that holds between any two positions. */
  ghost predicate Pairwise<T>(r: (T, T) -> bool, s: seq<T>) {
    forall i, j | 0 <= i < j < |s| :: r(s[i], s[j])
  }

  lemma PairwiseSnoc<T(!new)>(r: (T, T) -> bool, s: seq<T>, x: T)
    requires Pairwise(r, s) && forall y | y in s :: r(y, x)
    ensures Pairwise(r, s + [x])
  {
  }

  lemma {:induction false} TwoPositions<T(!new)>(s: seq<T>, x: T) returns (i: nat, j: nat)
    requires multiset(s)[x] >= 2
    ensures i < j < |s| && s[i] == x && s[j] == x
  {
    var n := |s| - 1;
    assert s == s[..n] + [s[n]];
    if s[n] == x {
      assert x in multiset(s[..n]);
      i, j :| 0 <= i < n && s[i] == x && j == n;
    } else {
      i, j := TwoPositions(s[..n], x);
    }
  }

  lemma OccursTwice<T(!new)>(s: seq<T>, i: nat, j: nat)
    requires i < j < |s| && s[i] == s[j]
    ensures multiset(s)[s[i]] >= 2
  {
    assert s == s[..j] + [s[j]] + s[j + 1..];
    assert s[i] in s[..j];
    assert s[i] in multiset(s[..j]);
  }

  /** A symmetric pairwise relation does not depend on the order of the list. */
  lemma PairwiseOfPermutation<T(!new)>(r: (T, T) -> bool, a: seq<T>, b: seq<T>)
    requires (forall x, y :: r(x, y) ==> r(y, x)) && multiset(a) == multiset(b) && Pairwise(r, a)
    ensures Pairwise(r, b)
  {
    forall i, j | 0 <= i < j < |b| ensures r(b[i], b[j]) {
      assert b[i] in multiset(a) && b[j] in multiset(a);
      if b[i] == b[j] {
        OccursTwice(b, i, j);
        var k, l := TwoPositions(a, b[i]);
      } else {
        var k, l :| 0 <= k < |a| && 0 <= l < |a| && a[k] == b[i] && a[l] == b[j];
        assert k < l || l < k;
      }
    }
  }

  function SumOf<T>(f: T -> int, s: seq<T>): int {
    if s == [] then 0 else f(s[0]) + SumOf(f, s[1..])
  }

  lemma {:induction false} SumWithout<T(!new)>(f: T -> int, s: seq<T>, k: nat)
    requires k < |s|
    ensures SumOf(f, s) == f(s[k]) + SumOf(f, s[..k] + s[k + 1..])
  {
    if k == 0 {
      assert s[..0] + s[1..] == s[1..];
    } else {
      SumWithout(f, s[1..], k - 1);
      assert (s[..k] + s[k + 1..])[1..] == s[1..][..k - 1] + s[1..][k..];
    }
  }

  /** A sum does not depend on the order of the list. */
  lemma {:induction false} SumOfPermutation<T(!new)>(f: T -> int, a: seq<T>, b: seq<T>)
    requires multiset(a) == multiset(b)
    ensures SumOf(f, a) == SumOf(f, b)
  {
    assert |multiset(a)| == |multiset(b)|;
    if a != [] {
      assert a[0] in multiset(b);
      var k :| 0 <= k < |b| && b[k] == a[0];
      SumWithout(f, b, k);
      WithoutFirst(a);
      assert b == b[..k] + [b[k]] + b[k + 1..];
      SumOfPermutation(f, a[1..], b[..k] + b[k + 1..]);
    }
  }
}
