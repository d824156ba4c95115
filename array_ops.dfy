/** The three array operations the listing view relies on, with the
    meaning ECMAScript gives them: `filter`, `map` and a stable `sort`
    driven by a comparator. */
module ArrayOps {

  // ---------------------------------------------------------------
  // filter
  // ---------------------------------------------------------------

  /** `s.filter(f)`: the elements of `s` for which `f` holds, in order. */
  function Filter<T>(s: seq<T>, f: T -> bool): (r: seq<T>)
    ensures |r| <= |s|
    ensures forall k :: 0 <= k < |r| ==> f(r[k])
  {
    if s == [] then []
    else if f(s[0]) then [s[0]] + Filter(s[1..], f)
    else Filter(s[1..], f)
  }

  /** `r` can be obtained from `s` by deleting elements, so `r` keeps
      the relative order of what it retains. */
  predicate IsSubsequence<T(==)>(r: seq<T>, s: seq<T>)
  {
    if r == [] then true
    else if s == [] then false
    else (r[0] == s[0] && IsSubsequence(r[1..], s[1..])) || IsSubsequence(r, s[1..])
  }

  /** An element is kept exactly when it occurs in `s` and passes `f`. */
  lemma {:induction false} FilterMembership<T>(s: seq<T>, f: T -> bool, x: T)
    ensures x in Filter(s, f) <==> x in s && f(x)
  {
    if s != [] {
      FilterMembership(s[1..], f, x);
      assert s == [s[0]] + s[1..];
    }
  }

  /** Filtering keeps every copy of a passing element and no copy of
      a failing one: the result is exactly the passing sub-multiset. */
  lemma {:induction false} FilterMultiset<T>(s: seq<T>, f: T -> bool, x: T)
    ensures multiset(Filter(s, f))[x] == if f(x) then multiset(s)[x] else 0
    ensures multiset(Filter(s, f)) <= multiset(s)
  {
    if s != [] {
      var t := Filter(s[1..], f);
      FilterMultiset(s[1..], f, x);
      assert multiset(s) == multiset{s[0]} + multiset(s[1..]) by {
        assert s == [s[0]] + s[1..];
      }
      if f(s[0]) {
        assert multiset(Filter(s, f)) == multiset{s[0]} + multiset(t) by {
          assert Filter(s, f) == [s[0]] + t;
        }
      } else {
        assert Filter(s, f) == t;
      }
    }
  }

  /** Filtering preserves the relative order of the kept elements. */
  lemma {:induction false} FilterIsSubsequence<T>(s: seq<T>, f: T -> bool)
    ensures IsSubsequence(Filter(s, f), s)
  {
    if s != [] {
      FilterIsSubsequence(s[1..], f);
      var r := Filter(s, f);
      if f(s[0]) {
        assert r[0] == s[0] && r[1..] == Filter(s[1..], f);
      } else if r != [] {
        assert r == Filter(s[1..], f);
      }
    }
  }

  /** Filtering changes nothing exactly when every element passes. */
  lemma {:induction false} FilterIdentity<T>(s: seq<T>, f: T -> bool)
    ensures Filter(s, f) == s <==> forall k :: 0 <= k < |s| ==> f(s[k])
  {
    if s != [] {
      FilterIdentity(s[1..], f);
      if !f(s[0]) {
        assert |Filter(s, f)| < |s|;
      } else if forall k :: 0 <= k < |s| ==> f(s[k]) {
        assert forall k :: 0 <= k < |s[1..]| ==> f(s[1..][k]) by {
          forall k | 0 <= k < |s[1..]| ensures f(s[1..][k]) {
            assert s[1..][k] == s[k + 1];
          }
        }
      }
    }
  }

  /** Filtering twice with the same test is filtering once. */
  lemma FilterIdempotent<T>(s: seq<T>, f: T -> bool)
    ensures Filter(Filter(s, f), f) == Filter(s, f)
  {
    FilterIdentity(Filter(s, f), f);
  }

  /** Filtering a concatenation filters each part. */
  lemma {:induction false} FilterConcat<T>(a: seq<T>, b: seq<T>, f: T -> bool)
    ensures Filter(a + b, f) == Filter(a, f) + Filter(b, f)
  {
    if a != [] {
      FilterConcat(a[1..], b, f);
      var ab := a + b;
      assert ab != [] && ab[0] == a[0] && ab[1..] == a[1..] + b;
      if f(a[0]) {
        calc {
          Filter(ab, f);
          [a[0]] + Filter(a[1..] + b, f);
          [a[0]] + (Filter(a[1..], f) + Filter(b, f));
          ([a[0]] + Filter(a[1..], f)) + Filter(b, f);
        }
      }
    } else {
      assert a + b == b;
    }
  }

  // ---------------------------------------------------------------
  // map
  // ---------------------------------------------------------------

  /** `s.map(g)`: `g` applied to every element, position by position. */
  function Map<T, U>(s: seq<T>, g: T -> U): (r: seq<U>)
    ensures |r| == |s|
    ensures forall k :: 0 <= k < |s| ==> r[k] == g(s[k])
  {
    if s == [] then [] else [g(s[0])] + Map(s[1..], g)
  }

  // ---------------------------------------------------------------
  // sort
  // ---------------------------------------------------------------

  /** What ECMAScript asks of a comparator for `sort` to be defined:
      any two elements are ordered one way or the other, "equal" is
      symmetric, and "not after" is transitive. */
  ghost predicate ConsistentComparator<T(!new)>(cmp: (T, T) -> int)
  {
    && (forall a, b {:trigger cmp(a, b), cmp(b, a)} :: cmp(a, b) <= 0 || cmp(b, a) <= 0)
    && (forall a, b {:trigger cmp(a, b), cmp(b, a)} :: cmp(a, b) == 0 ==> cmp(b, a) == 0)
    && (forall a, b, c {:trigger cmp(a, b), cmp(b, c), cmp(a, c)} ::
          cmp(a, b) <= 0 && cmp(b, c) <= 0 ==> cmp(a, c) <= 0)
  }

  /** No element is placed after one the comparator puts before it. */
  predicate Sorted<T>(s: seq<T>, cmp: (T, T) -> int)
  {
    forall i, j :: 0 <= i < j < |s| ==> cmp(s[i], s[j]) <= 0
  }

  /** Dropping the first element of a sorted sequence keeps it sorted. */
  lemma SortedTail<T>(s: seq<T>, cmp: (T, T) -> int)
    requires s != [] && Sorted(s, cmp)
    ensures Sorted(s[1..], cmp)
  {
    var rest := s[1..];
    forall i, j | 0 <= i < j < |rest| ensures cmp(rest[i], rest[j]) <= 0 {
      assert rest[i] == s[i + 1] && rest[j] == s[j + 1];
    }
  }

  /** A sorted sequence stays sorted when an element that comes before
      all of it is put in front. */
  lemma SortedCons<T>(x: T, s: seq<T>, cmp: (T, T) -> int)
    requires Sorted(s, cmp)
    requires forall k :: 0 <= k < |s| ==> cmp(x, s[k]) <= 0
    ensures Sorted([x] + s, cmp)
  {
    forall i, j | 0 <= i < j < |[x] + s| ensures cmp(([x] + s)[i], ([x] + s)[j]) <= 0 {
      if i == 0 {
        assert ([x] + s)[j] == s[j - 1];
      } else {
        assert ([x] + s)[i] == s[i - 1] && ([x] + s)[j] == s[j - 1];
      }
    }
  }

  /** Places `x` in front of the first element it does not come after.
      Because `x` stands before all of `s` in the input, putting it
      before its equals is what keeps the sort stable. */
  function Insert<T>(x: T, s: seq<T>, cmp: (T, T) -> int): (r: seq<T>)
    ensures multiset(r) == multiset(s) + multiset{x}
  {
    if s == [] then [x]
    else if cmp(x, s[0]) <= 0 then [x] + s
    else
      assert s == [s[0]] + s[1..];
      [s[0]] + Insert(x, s[1..], cmp)
  }

  /** Inserting into a sorted sequence keeps it sorted. */
  lemma {:induction false} InsertSorted<T(!new)>(x: T, s: seq<T>, cmp: (T, T) -> int)
    requires ConsistentComparator(cmp)
    requires Sorted(s, cmp)
    ensures Sorted(Insert(x, s, cmp), cmp)
  {
    if s == [] {
    } else if cmp(x, s[0]) <= 0 {
      assert forall k :: 0 <= k < |s| ==> cmp(x, s[k]) <= 0 by {
        forall k | 0 < k < |s| ensures cmp(x, s[k]) <= 0 {
          assert cmp(s[0], s[k]) <= 0;
        }
      }
      SortedCons(x, s, cmp);
    } else {
      var rest := s[1..];
      SortedTail(s, cmp);
      InsertSorted(x, rest, cmp);
      var t := Insert(x, rest, cmp);
      assert s == [s[0]] + rest;
      assert forall k :: 0 <= k < |t| ==> cmp(s[0], t[k]) <= 0 by {
        forall k | 0 <= k < |t| ensures cmp(s[0], t[k]) <= 0 {
          assert t[k] in multiset(t);
          if t[k] == x {
            assert cmp(s[0], x) <= 0;
          } else {
            assert t[k] in multiset(rest);
            var m :| 0 <= m < |rest| && rest[m] == t[k];
            assert s[m + 1] == t[k];
          }
        }
      }
      SortedCons(s[0], t, cmp);
    }
  }

  /** `s.sort(cmp)`: a stable sort (ECMAScript 2019 requires that
      elements the comparator calls equal keep their input order). */
  function Sort<T(!new)>(s: seq<T>, cmp: (T, T) -> int): (r: seq<T>)
    requires ConsistentComparator(cmp)
    ensures Sorted(r, cmp)
    ensures multiset(r) == multiset(s)
  {
    if s == [] then []
    else
      assert s == [s[0]] + s[1..];
      var t := Sort(s[1..], cmp);
      InsertSorted(s[0], t, cmp);
      Insert(s[0], t, cmp)
  }

  /** The elements the comparator ranks equal to `x`. */
  function EquivalentTo<T>(cmp: (T, T) -> int, x: T): T -> bool
  {
    y => cmp(y, x) == 0
  }

  /** Filtering a list with a known first element. */
  lemma FilterCons<T>(y: T, s: seq<T>, f: T -> bool)
    ensures Filter([y] + s, f) == (if f(y) then [y] else []) + Filter(s, f)
  {
    assert ([y] + s)[0] == y && ([y] + s)[1..] == s;
  }

  /** Two prefixes of which one is empty can be applied in either order. */
  lemma SwapEmptyPrefix<T>(p: seq<T>, q: seq<T>, z: seq<T>)
    requires p == [] || q == []
    ensures q + (p + z) == p + (q + z)
  {
    if p == [] {
      assert p + z == z && p + (q + z) == q + z;
    } else {
      assert q + (p + z) == p + z && q + z == z;
    }
  }

  /** Inserting `a` adds it to the elements ranked equal to `x` in
      front of those already there, or not at all. */
  lemma {:induction false} FilterInsert<T(!new)>(a: T, t: seq<T>, cmp: (T, T) -> int, x: T)
    requires ConsistentComparator(cmp)
    ensures Filter(Insert(a, t, cmp), EquivalentTo(cmp, x))
         == (if cmp(a, x) == 0 then [a] else []) + Filter(t, EquivalentTo(cmp, x))
  {
    var e := EquivalentTo(cmp, x);
    var r := Insert(a, t, cmp);
    var sa: seq<T> := if cmp(a, x) == 0 then [a] else [];
    if t == [] || cmp(a, t[0]) <= 0 {
      assert r == [a] + t;
      FilterCons(a, t, e);
    } else {
      var t0, rest := t[0], t[1..];
      var u := Insert(a, rest, cmp);
      var st: seq<T> := if cmp(t0, x) == 0 then [t0] else [];
      // t0 comes strictly before a, so t0 and a cannot both rank equal to x
      assert sa == [] || st == [] by {
        assert cmp(t0, x) == 0 ==> cmp(x, t0) == 0;
        assert cmp(a, x) <= 0 && cmp(x, t0) <= 0 ==> cmp(a, t0) <= 0;
      }
      calc {
        Filter(r, e);
        { assert r == [t0] + u; FilterCons(t0, u, e); }
        st + Filter(u, e);
        { FilterInsert(a, rest, cmp, x); }
        st + (sa + Filter(rest, e));
        { SwapEmptyPrefix(sa, st, Filter(rest, e)); }
        sa + (st + Filter(rest, e));
        { assert t == [t0] + rest; FilterCons(t0, rest, e); }
        sa + Filter(t, e);
      }
    }
  }

  /** Stability: the elements ranked equal to any `x` appear in the
      sorted result in the same order as in the input. */
  lemma {:induction false} SortStable<T(!new)>(s: seq<T>, cmp: (T, T) -> int, x: T)
    requires ConsistentComparator(cmp)
    ensures Filter(Sort(s, cmp), EquivalentTo(cmp, x)) == Filter(s, EquivalentTo(cmp, x))
  {
    if s != [] {
      SortStable(s[1..], cmp, x);
      FilterInsert(s[0], Sort(s[1..], cmp), cmp, x);
      FilterCons(s[0], s[1..], EquivalentTo(cmp, x));
      assert s == [s[0]] + s[1..];
    }
  }

  /** Inserting an element that ranks no later than the head puts it
      in front. */
  lemma InsertFront<T>(x: T, s: seq<T>, cmp: (T, T) -> int)
    requires s == [] || cmp(x, s[0]) <= 0
    ensures Insert(x, s, cmp) == [x] + s
  {
  }

  /** In a sorted sequence the head ranks no later than the next element. */
  lemma SortedHead<T>(s: seq<T>, cmp: (T, T) -> int)
    requires 2 <= |s| && Sorted(s, cmp)
    ensures cmp(s[0], s[1]) <= 0
  {
  }

  /** Sorting an already sorted sequence leaves it as it is. */
  lemma {:induction false} SortOfSorted<T(!new)>(s: seq<T>, cmp: (T, T) -> int)
    requires ConsistentComparator(cmp)
    requires Sorted(s, cmp)
    ensures Sort(s, cmp) == s
  {
    if s != [] {
      var rest := s[1..];
      calc {
        Sort(s, cmp);
        Insert(s[0], Sort(rest, cmp), cmp);
        { SortedTail(s, cmp); SortOfSorted(rest, cmp); }
        Insert(s[0], rest, cmp);
        { if rest != [] { SortedHead(s, cmp); } InsertFront(s[0], rest, cmp); }
        [s[0]] + rest;
        s;
      }
    }
  }
}
