/**
  A stable insertion sort driven by a "may precede" relation. The listing
  turns each of its `Array.prototype.sort` comparators `cmp` into the relation
  `cmp(a, b) <= 0`; the engine's sort is stable, so elements the comparator
  ties keep their input order.
 */
module Sorting {
  import opened Seqs

  /** `le` is total and transitive: a comparator that sorts consistently. */
  ghost predicate TotalPreorder<T(!new)>(le: (T, T) -> bool) {
    && (forall x, y :: le(x, y) || le(y, x))
    && (forall x, y, z :: le(x, y) && le(y, z) ==> le(x, z))
  }

  /** Every element may precede every later one. */
  ghost predicate Sorted<T>(s: seq<T>, le: (T, T) -> bool) {
    forall i, j :: 0 <= i < j < |s| ==> le(s[i], s[j])
  }

  /** The elements `le` ties with `z`: one equivalence class of the comparator. */
  function TiedWith<T>(le: (T, T) -> bool, z: T): T -> bool {
    y => le(z, y) && le(y, z)
  }

  /** Puts `x` before the first element it may precede. */
  function Insert<T>(x: T, s: seq<T>, le: (T, T) -> bool): (r: seq<T>)
    ensures multiset(r) == multiset(s) + multiset{x}
    decreases |s|
  {
    if |s| == 0 then [x]
    else if le(x, s[0]) then [x] + s
    else
      assert s == [s[0]] + s[1..];
      [s[0]] + Insert(x, s[1..], le)
  }

  /** Insertion sort: inserts the head into the sorted tail. */
  function SortBy<T>(s: seq<T>, le: (T, T) -> bool): (r: seq<T>)
    ensures multiset(r) == multiset(s)
    decreases |s|
  {
    if |s| == 0 then []
    else
      assert s == [s[0]] + s[1..];
      Insert(s[0], SortBy(s[1..], le), le)
  }

  /** A head that may precede every element of a sorted tail keeps the list sorted. */
  lemma ConsSorted<T>(h: T, t: seq<T>, le: (T, T) -> bool)
    requires Sorted(t, le)
    requires forall y :: y in t ==> le(h, y)
    ensures Sorted([h] + t, le)
  {
    var r := [h] + t;
    forall i, j | 0 <= i < j < |r|
      ensures le(r[i], r[j])
    {
      assert r[j] == t[j - 1];
      if i > 0 {
        assert r[i] == t[i - 1];
      }
    }
  }

  /** The head of a sorted list may precede each of its elements after the head. */
  lemma SortedHead<T>(s: seq<T>, le: (T, T) -> bool, y: T)
    requires Sorted(s, le) && |s| > 0 && y in s[1..]
    ensures le(s[0], y)
  {
    var k :| 0 <= k < |s[1..]| && s[1..][k] == y;
    assert s[k + 1] == y;
  }

  lemma {:induction false} InsertSorted<T(!new)>(x: T, s: seq<T>, le: (T, T) -> bool)
    requires TotalPreorder(le) && Sorted(s, le)
    ensures Sorted(Insert(x, s, le), le)
    decreases |s|
  {
    if |s| > 0 {
      if le(x, s[0]) {
        forall y | y in s
          ensures le(x, y)
        {
          if y != s[0] {
            assert s == [s[0]] + s[1..];
            SortedHead(s, le, y);
          }
        }
        ConsSorted(x, s, le);
      } else {
        var rest := Insert(x, s[1..], le);
        InsertSorted(x, s[1..], le);
        assert Sorted(s[1..], le) by {
          forall i, j | 0 <= i < j < |s[1..]|
            ensures le(s[1..][i], s[1..][j])
          {
            assert s[1..][i] == s[i + 1] && s[1..][j] == s[j + 1];
          }
        }
        forall y | y in rest
          ensures le(s[0], y)
        {
          assert y in multiset(rest);
          if y != x {
            assert y in multiset(s[1..]);
            SortedHead(s, le, y);
          }
        }
        ConsSorted(s[0], rest, le);
      }
    }
  }

  /** The insertion sort orders its input by `le`. */
  lemma {:induction false} SortBySorted<T(!new)>(s: seq<T>, le: (T, T) -> bool)
    requires TotalPreorder(le)
    ensures Sorted(SortBy(s, le), le)
    decreases |s|
  {
    if |s| > 0 {
      SortBySorted(s[1..], le);
      InsertSorted(s[0], SortBy(s[1..], le), le);
    }
  }

  /**
    Inserting `x` adds it to its own tie class in front of the tied elements
    already present, and leaves every other tie class as it was.
   */
  lemma {:induction false} InsertTiedClass<T(!new)>(x: T, s: seq<T>, le: (T, T) -> bool, z: T)
    requires TiesComparable(le, z)
    ensures Filter(Insert(x, s, le), TiedWith(le, z))
         == (if TiedWith(le, z)(x) then [x] else []) + Filter(s, TiedWith(le, z))
    decreases |s|
  {
    var tied := TiedWith(le, z);
    if |s| > 0 {
      var hx := if tied(x) then [x] else [];
      var h0 := if tied(s[0]) then [s[0]] else [];
      var tail := Filter(s[1..], tied);
      assert s == [s[0]] + s[1..];
      FilterCons(s[0], s[1..], tied);
      assert Filter(s, tied) == h0 + tail;
      if le(x, s[0]) {
        assert Insert(x, s, le) == [x] + s;
        FilterCons(x, s, tied);
        assert Filter(Insert(x, s, le), tied) == hx + Filter(s, tied);
      } else {
        var rest := Insert(x, s[1..], le);
        assert Insert(x, s, le) == [s[0]] + rest;
        InsertTiedClass(x, s[1..], le, z);
        FilterCons(s[0], rest, tied);
        assert Filter(Insert(x, s, le), tied) == h0 + (hx + tail);
        assert !(tied(x) && tied(s[0]));
        SwapHeads(hx, h0, tail);
      }
    } else {
      assert Insert(x, s, le) == [x] + s;
      FilterCons(x, s, tied);
    }
  }

  /** Two prefixes one of which is empty can be put in either order. */
  lemma SwapHeads<T>(a: seq<T>, b: seq<T>, tail: seq<T>)
    requires a == [] || b == []
    ensures b + (a + tail) == a + (b + tail)
  {
    if a == [] {
      assert a + tail == tail && a + (b + tail) == b + tail;
    } else {
      assert b + (a + tail) == a + tail && b + tail == tail;
    }
  }

  /** Any two members of the tie class of `z` may precede each other. */
  ghost predicate TiesComparable<T(!new)>(le: (T, T) -> bool, z: T) {
    forall a, b :: TiedWith(le, z)(a) && TiedWith(le, z)(b) ==> le(a, b)
  }

  /** In a total preorder, members of one tie class may precede each other. */
  lemma TotalPreorderTiesComparable<T(!new)>(le: (T, T) -> bool, z: T)
    requires TotalPreorder(le)
    ensures TiesComparable(le, z)
  {
    forall a, b | TiedWith(le, z)(a) && TiedWith(le, z)(b)
      ensures le(a, b)
    {
      assert le(a, z) && le(z, b);
    }
  }

  /**
    Stability: within every tie class the sorted output lists the elements in
    exactly their input order.
   */
  lemma {:induction false} SortByStable<T(!new)>(s: seq<T>, le: (T, T) -> bool, z: T)
    requires TotalPreorder(le)
    ensures Filter(SortBy(s, le), TiedWith(le, z)) == Filter(s, TiedWith(le, z))
    decreases |s|
  {
    if |s| > 0 {
      SortByStable(s[1..], le, z);
      TotalPreorderTiesComparable(le, z);
      InsertTiedClass(s[0], SortBy(s[1..], le), le, z);
    }
  }
}
