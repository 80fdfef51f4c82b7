/** Sorting a slice by a less function, as sort.Slice promises it, and the byte order of strings. */
module Sorting {
  /** What sort.Slice needs of its less function, on the elements at hand: a strict weak order. */
  ghost predicate WeakOrderOn<T>(less: (T, T) -> bool, s: seq<T>) {
    && (forall a, b | a in s && b in s && less(a, b) :: !less(b, a))
    && (forall a, b, c | a in s && b in s && c in s && !less(a, b) && !less(b, c) :: !less(a, c))
  }

  predicate SortedBy<T>(less: (T, T) -> bool, s: seq<T>) {
    forall i, j | 0 <= i < j < |s| :: !less(s[j], s[i])
  }

  function Insert<T>(less: (T, T) -> bool, s: seq<T>, x: T): (r: seq<T>)
    ensures multiset(r) == multiset(s) + multiset{x}
  {
    if s == [] then [x]
    else if less(x, s[|s| - 1]) then
      assert s == s[..|s| - 1] + [s[|s| - 1]];
      Insert(less, s[..|s| - 1], x) + [s[|s| - 1]]
    else s + [x]
  }

  function Sort<T>(less: (T, T) -> bool, s: seq<T>): (r: seq<T>)
    ensures multiset(r) == multiset(s)
  {
    if s == [] then []
    else
      assert s == s[..|s| - 1] + [s[|s| - 1]];
      Insert(less, Sort(less, s[..|s| - 1]), s[|s| - 1])
  }

  lemma MultisetMembers<T>(a: seq<T>, b: seq<T>)
    requires multiset(a) == multiset(b)
    ensures |a| == |b|
    ensures forall x :: x in a <==> x in b
  {
    assert |multiset(a)| == |multiset(b)|;
    forall x ensures x in a <==> x in b {
      assert x in a <==> x in multiset(a);
      assert x in b <==> x in multiset(b);
    }
  }

  lemma WeakOrderPermutes<T>(less: (T, T) -> bool, a: seq<T>, b: seq<T>)
    requires multiset(a) == multiset(b) && WeakOrderOn(less, b)
    ensures WeakOrderOn(less, a)
  {
    forall x | x in a ensures x in b {
      assert x in multiset(b);
    }
  }

  lemma {:induction false} InsertSorts<T>(less: (T, T) -> bool, s: seq<T>, x: T)
    requires WeakOrderOn(less, s + [x]) && SortedBy(less, s)
    ensures SortedBy(less, Insert(less, s, x))
  {
    if s != [] {
      var init, last := s[..|s| - 1], s[|s| - 1];
      assert last in s + [x] && x in s + [x];
      if less(x, last) {
        assert forall y | y in init + [x] :: y in s + [x];
        InsertSorts(less, init, x);
        var r := Insert(less, init, x);
        forall i | 0 <= i < |r| ensures !less(last, r[i]) {
          assert r[i] in multiset(r);
          assert r[i] in init || r[i] == x;
        }
      } else {
        forall i | 0 <= i < |s| ensures !less(x, s[i]) {
          assert s[i] in s + [x];
          assert !less(last, s[i]) || i == |s| - 1;
        }
      }
    }
  }

  lemma {:induction false} SortSorts<T>(less: (T, T) -> bool, s: seq<T>)
    requires WeakOrderOn(less, s)
    ensures SortedBy(less, Sort(less, s))
  {
    if s != [] {
      var init := s[..|s| - 1];
      SortSorts(less, init);
      var sorted := Sort(less, init);
      assert s == init + [s[|s| - 1]];
      WeakOrderPermutes(less, sorted + [s[|s| - 1]], s);
      InsertSorts(less, sorted, s[|s| - 1]);
    }
  }

  /** sort.Slice. Its algorithm is a library's; what is relied on is that it permutes the slice and sorts it. */
  method SortSlice<T>(a: array<T>, less: (T, T) -> bool)
    requires WeakOrderOn(less, a[..])
    modifies a
    ensures multiset(a[..]) == multiset(old(a[..]))
    ensures SortedBy(less, a[..])
  {
    var sorted := Sort(less, a[..]);
    SortSorts(less, a[..]);
    MultisetMembers(sorted, a[..]);
    for i := 0 to a.Length
      invariant a[..i] == sorted[..i]
    {
      a[i] := sorted[i];
    }
    assert a[..] == sorted;
  }

  // ---- String order ----

  /** The order of strings: a is a proper prefix of b, or the first character in which they differ is smaller in a. */
  ghost predicate Precedes(a: string, b: string) {
    a < b || exists k :: DiffersFirstAt(a, b, k)
  }

  predicate DiffersFirstAt(a: string, b: string, k: int) {
    0 <= k < |a| && k < |b| && a[..k] == b[..k] && a[k] < b[k]
  }

  predicate LexLess(a: string, b: string) {
    b != "" && (a == "" || a[0] < b[0] || (a[0] == b[0] && LexLess(a[1..], b[1..])))
  }

  lemma {:induction false} LexLessIsPrecedes(a: string, b: string)
    ensures LexLess(a, b) <==> Precedes(a, b)
  {
    if a != "" && b != "" {
      LexLessIsPrecedes(a[1..], b[1..]);
      forall k | k > 0 && DiffersFirstAt(a, b, k) ensures a[0] == b[0] {
        assert a[0] == a[..k][0] && b[0] == b[..k][0];
      }
      if a[0] == b[0] {
        assert a == [a[0]] + a[1..] && b == [b[0]] + b[1..];
        assert a < b <==> a[1..] < b[1..];
        forall k | k > 0 ensures DiffersFirstAt(a, b, k) <==> DiffersFirstAt(a[1..], b[1..], k - 1) {
          if k < |a| && k < |b| {
            assert a[..k] == [a[0]] + a[1..][..k - 1] && b[..k] == [b[0]] + b[1..][..k - 1];
          }
        }
        if k :| DiffersFirstAt(a[1..], b[1..], k) {
          assert DiffersFirstAt(a, b, k + 1);
        }
      } else {
        assert a[0] < b[0] ==> DiffersFirstAt(a, b, 0);
      }
    }
  }

  lemma NotBeforeItself(a: string)
    ensures !Precedes(a, a)
  {
  }

  lemma {:induction false} LexAsymmetric(a: string, b: string)
    requires LexLess(a, b)
    ensures !LexLess(b, a)
  {
    if a != "" && a[0] == b[0] {
      LexAsymmetric(a[1..], b[1..]);
    }
  }

  lemma {:induction false} LexNegativelyTransitive(a: string, b: string, c: string)
    requires !LexLess(a, b) && !LexLess(b, c)
    ensures !LexLess(a, c)
  {
    if a != "" && b != "" && c != "" && a[0] == b[0] == c[0] {
      LexNegativelyTransitive(a[1..], b[1..], c[1..]);
    }
  }
}
