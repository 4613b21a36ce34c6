/**
 * `Array.prototype.sort` with a comparator, which the language requires to be stable.
 * A comparator returns a negative number when its first argument goes first,
 * a positive one when the second does, and zero when their order is to be kept.
 */
module Sorting {
  import opened Sequences

  /**
   * The comparators the pages pass are consistent: swapping the arguments flips the sign,
   * and "goes no later than" is transitive. Together these make "cmp(a, b) <= 0" a total preorder.
   */
  ghost predicate IsComparator<T(!new)>(cmp: (T, T) -> int)
  {
    && (forall a, b {:trigger cmp(a, b), cmp(b, a)} :: cmp(a, b) < 0 <==> cmp(b, a) > 0)
    && (forall a, b, c {:trigger cmp(a, b), cmp(b, c), cmp(a, c)} :: cmp(a, b) <= 0 && cmp(b, c) <= 0 ==> cmp(a, c) <= 0)
  }

  /** Every element goes no later than every element after it. */
  ghost predicate SortedBy<T>(s: seq<T>, cmp: (T, T) -> int)
  {
    forall i, j :: 0 <= i < j < |s| ==> cmp(s[i], s[j]) <= 0
  }

  /** The elements the comparator cannot tell apart from `k`. */
  function TiedWith<T>(cmp: (T, T) -> int, k: T): T -> bool
  {
    x => cmp(x, k) == 0
  }

  /** Places `x` after every element of `t` that does not compare strictly greater than it. */
  function Insert<T>(x: T, t: seq<T>, cmp: (T, T) -> int): seq<T>
  {
    if t == [] then [x]
    else if cmp(x, t[0]) < 0 then [x] + t
    else [t[0]] + Insert(x, t[1..], cmp)
  }

  /** Inserting adds `x` and keeps every element of `t`. */
  lemma {:induction false} InsertPermutes<T>(x: T, t: seq<T>, cmp: (T, T) -> int)
    ensures multiset(Insert(x, t, cmp)) == multiset(t) + multiset{x}
  {
    if t != [] && cmp(x, t[0]) >= 0 {
      InsertPermutes(x, t[1..], cmp);
      assert t == [t[0]] + t[1..];
    }
  }

  /** Stable insertion sort: each element is inserted after the elements that came before it. */
  function Sort<T>(s: seq<T>, cmp: (T, T) -> int): (r: seq<T>)
    ensures multiset(r) == multiset(s)
  {
    if s == [] then []
    else
      var init, x := s[..|s| - 1], s[|s| - 1];
      assert s == init + [x];
      assert multiset(s) == multiset(init) + multiset{x};
      InsertPermutes(x, Sort(init, cmp), cmp);
      Insert(x, Sort(init, cmp), cmp)
  }

  lemma {:induction false} InsertSorted<T(!new)>(x: T, t: seq<T>, cmp: (T, T) -> int)
    requires IsComparator(cmp) && SortedBy(t, cmp)
    ensures SortedBy(Insert(x, t, cmp), cmp)
  {
    if t == [] {
    } else if cmp(x, t[0]) < 0 {
      forall j | 0 <= j < |t| ensures cmp(x, t[j]) <= 0 {
        if j > 0 {
          StrictBeforeChain(cmp, x, t[0], t[j]);
        }
      }
      ConsSorted(x, t, cmp);
    } else {
      TailSorted(t, cmp);
      InsertSorted(x, t[1..], cmp);
      InsertPermutes(x, t[1..], cmp);
      var rest := Insert(x, t[1..], cmp);
      forall j | 0 <= j < |rest| ensures cmp(t[0], rest[j]) <= 0 {
        assert rest[j] in multiset(rest);
        if rest[j] == x {
          assert cmp(t[0], x) <= 0;
        } else {
          HeadFirst(t, cmp, rest[j]);
        }
      }
      ConsSorted(t[0], rest, cmp);
    }
  }

  /** A sorted sequence stays sorted when an element going no later than all of it is put in front. */
  lemma ConsSorted<T>(h: T, t: seq<T>, cmp: (T, T) -> int)
    requires SortedBy(t, cmp) && forall j :: 0 <= j < |t| ==> cmp(h, t[j]) <= 0
    ensures SortedBy([h] + t, cmp)
  {
    var r := [h] + t;
    forall i, j | 0 <= i < j < |r| ensures cmp(r[i], r[j]) <= 0 {
      assert r[j] == t[j - 1];
      if i > 0 {
        assert r[i] == t[i - 1];
      }
    }
  }

  lemma TailSorted<T>(t: seq<T>, cmp: (T, T) -> int)
    requires t != [] && SortedBy(t, cmp)
    ensures SortedBy(t[1..], cmp)
  {
    forall i, j | 0 <= i < j < |t[1..]| ensures cmp(t[1..][i], t[1..][j]) <= 0 {
      assert t[1..][i] == t[i + 1] && t[1..][j] == t[j + 1];
    }
  }

  /** The head of a sorted sequence goes no later than any later element. */
  lemma HeadFirst<T>(t: seq<T>, cmp: (T, T) -> int, y: T)
    requires t != [] && SortedBy(t, cmp) && y in t[1..]
    ensures cmp(t[0], y) <= 0
  {
    var k :| 0 <= k < |t[1..]| && t[1..][k] == y;
    assert t[k + 1] == y;
  }

  /** The sort returns its input ordered by the comparator. */
  lemma {:induction false} SortSorted<T(!new)>(s: seq<T>, cmp: (T, T) -> int)
    requires IsComparator(cmp)
    ensures SortedBy(Sort(s, cmp), cmp)
  {
    if s != [] {
      SortSorted(s[..|s| - 1], cmp);
      InsertSorted(s[|s| - 1], Sort(s[..|s| - 1], cmp), cmp);
    }
  }

  /** Inserting into a sorted sequence puts `x` after every element tied with it. */
  lemma {:induction false} InsertTies<T(!new)>(x: T, t: seq<T>, cmp: (T, T) -> int, k: T)
    requires IsComparator(cmp) && SortedBy(t, cmp)
    ensures Filter(Insert(x, t, cmp), TiedWith(cmp, k)) == Filter(t, TiedWith(cmp, k)) + Filter([x], TiedWith(cmp, k))
  {
    var tied := TiedWith(cmp, k);
    if t == [] {
    } else if cmp(x, t[0]) < 0 {
      assert Insert(x, t, cmp) == [x] + t;
      FilterAppend([x], t, tied);
      if tied(x) {
        forall i | 0 <= i < |t| ensures !tied(t[i]) {
          NotTiedAfterGreater(x, t, cmp, k, i);
        }
        FilterNone(t, tied);
      } else {
        assert Filter([x], tied) == [];
      }
    } else {
      TailSorted(t, cmp);
      InsertTies(x, t[1..], cmp, k);
      TiesAfterHead(x, t, cmp, tied);
    }
  }

  /** The step of InsertTies where `x` is inserted after the head of `t`. */
  lemma TiesAfterHead<T>(x: T, t: seq<T>, cmp: (T, T) -> int, tied: T -> bool)
    requires t != [] && cmp(x, t[0]) >= 0
    requires Filter(Insert(x, t[1..], cmp), tied) == Filter(t[1..], tied) + Filter([x], tied)
    ensures Filter(Insert(x, t, cmp), tied) == Filter(t, tied) + Filter([x], tied)
  {
    var head, rest := Filter([t[0]], tied), Insert(x, t[1..], cmp);
    calc {
      Filter(Insert(x, t, cmp), tied);
      Filter([t[0]] + rest, tied);
      { FilterAppend([t[0]], rest, tied); }
      head + (Filter(t[1..], tied) + Filter([x], tied));
      (head + Filter(t[1..], tied)) + Filter([x], tied);
      { FilterAppend([t[0]], t[1..], tied); assert t == [t[0]] + t[1..]; }
      Filter(t, tied) + Filter([x], tied);
    }
  }

  /** When `x` goes strictly before the head of sorted `t` and is tied with `k`, nothing in `t` is. */
  lemma NotTiedAfterGreater<T(!new)>(x: T, t: seq<T>, cmp: (T, T) -> int, k: T, i: int)
    requires IsComparator(cmp) && SortedBy(t, cmp)
    requires 0 <= i < |t| && cmp(x, t[0]) < 0 && cmp(x, k) == 0
    ensures cmp(t[i], k) != 0
  {
    if i > 0 {
      assert cmp(t[0], t[i]) <= 0;
      StrictBeforeChain(cmp, x, t[0], t[i]);
    }
    TiedAreEquivalent(cmp, x, t[i], k);
  }

  lemma StrictBeforeChain<T(!new)>(cmp: (T, T) -> int, a: T, b: T, c: T)
    requires IsComparator(cmp) && cmp(a, b) < 0 && cmp(b, c) <= 0
    ensures cmp(a, c) < 0
  {
    assert cmp(b, a) > 0;
    assert cmp(c, a) > 0;
  }

  lemma TiedAreEquivalent<T(!new)>(cmp: (T, T) -> int, a: T, b: T, k: T)
    requires IsComparator(cmp) && cmp(a, b) < 0 && cmp(a, k) == 0
    ensures cmp(b, k) != 0
  {
    assert cmp(b, a) > 0;
    assert cmp(k, a) == 0;
  }

  lemma {:induction false} FilterNone<T>(s: seq<T>, p: T -> bool)
    requires forall i :: 0 <= i < |s| ==> !p(s[i])
    ensures Filter(s, p) == []
  {
    if s != [] {
      FilterNone(s[1..], p);
    }
  }

  /**
   * Stability: for every key `k`, the elements tied with `k` appear in the sorted output
   * in exactly the order they had in the input.
   */
  lemma {:induction false} SortStable<T(!new)>(s: seq<T>, cmp: (T, T) -> int, k: T)
    requires IsComparator(cmp)
    ensures Filter(Sort(s, cmp), TiedWith(cmp, k)) == Filter(s, TiedWith(cmp, k))
  {
    if s != [] {
      var init, x := s[..|s| - 1], s[|s| - 1];
      var tied := TiedWith(cmp, k);
      calc {
        Filter(Sort(s, cmp), tied);
        Filter(Insert(x, Sort(init, cmp), cmp), tied);
        { SortSorted(init, cmp); InsertTies(x, Sort(init, cmp), cmp, k); }
        Filter(Sort(init, cmp), tied) + Filter([x], tied);
        { SortStable(init, cmp, k); }
        Filter(init, tied) + Filter([x], tied);
        { FilterAppend(init, [x], tied); assert s == init + [x]; }
        Filter(s, tied);
      }
    }
  }

  /** With a comparator that ties everything, the sort keeps the input order. */
  lemma {:induction false} SortAllTied<T(!new)>(s: seq<T>, cmp: (T, T) -> int)
    requires forall a, b :: cmp(a, b) == 0
    ensures Sort(s, cmp) == s
  {
    if s != [] {
      var init, x := s[..|s| - 1], s[|s| - 1];
      SortAllTied(init, cmp);
      assert Sort(s, cmp) == Insert(x, init, cmp);
      InsertLast(x, init, cmp);
      assert s == init + [x];
    }
  }

  /** Two elements are swapped exactly when the second goes strictly first. */
  lemma SortPair<T>(x: T, y: T, cmp: (T, T) -> int)
    ensures Sort([x, y], cmp) == if cmp(y, x) < 0 then [y, x] else [x, y]
  {
    assert [x, y][..1] == [x];
    assert [x][..0] == [];
    assert Sort([x], cmp) == [x];
  }

  lemma {:induction false} InsertLast<T>(x: T, t: seq<T>, cmp: (T, T) -> int)
    requires forall i :: 0 <= i < |t| ==> cmp(x, t[i]) >= 0
    ensures Insert(x, t, cmp) == t + [x]
  {
    if t != [] {
      InsertLast(x, t[1..], cmp);
      assert t == [t[0]] + t[1..];
    }
  }
}
