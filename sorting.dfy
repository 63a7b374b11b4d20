/**
 * `sortByDesc($callback)` of the framework Collection: every element is
 * paired with the value the callback gives it, the pairs are sorted by
 * that value, largest first, and the elements are read back in the new
 * order. The sort is stable: elements with equal values keep their
 * original order.
 */
module Sorting {

  /** Elements paired with their sort values. */
  type Ranked<T> = seq<(T, int)>

  /** Pairs every element with the value given for it. */
  function Rank<T>(s: seq<T>, prio: seq<int>): (r: Ranked<T>)
    requires |prio| == |s|
    ensures |r| == |s|
    ensures forall i | 0 <= i < |s| :: r[i] == (s[i], prio[i])
  {
    seq(|s|, i requires 0 <= i < |s| => (s[i], prio[i]))
  }

  /** The elements of ranked pairs, in order (the first projection, as `Collection.Keys` is for keyed entries; kept here so that this module needs no other). */
  function Unrank<T>(r: Ranked<T>): (s: seq<T>)
    ensures |s| == |r|
    ensures forall i | 0 <= i < |r| :: s[i] == r[i].0
  {
    seq(|r|, i requires 0 <= i < |r| => r[i].0)
  }

  /** Sort values do not increase along `r`. */
  predicate Descending<T>(r: Ranked<T>)
  {
    forall i, j | 0 <= i < j < |r| :: r[i].1 >= r[j].1
  }

  /** Puts `x` before the first pair with a smaller value. */
  function Insert<T>(x: (T, int), s: Ranked<T>): (r: Ranked<T>)
    ensures |r| == |s| + 1
    ensures multiset(r) == multiset(s) + multiset{x}
    ensures r[0] == x || (s != [] && r[0] == s[0])
    decreases |s|
  {
    if s == [] || x.1 >= s[0].1 then [x] + s
    else
      assert s == [s[0]] + s[1..];
      [s[0]] + Insert(x, s[1..])
  }

  /** Inserting into an ordered sequence keeps it ordered. */
  lemma {:induction false} InsertOrdered<T>(x: (T, int), s: Ranked<T>)
    requires Descending(s)
    ensures Descending(Insert(x, s))
    decreases |s|
  {
    if s != [] && x.1 < s[0].1 {
      var t := s[1..];
      assert Descending(t) by {
        forall i, j | 0 <= i < j < |t| ensures t[i].1 >= t[j].1 {
          assert t[i] == s[i + 1] && t[j] == s[j + 1];
        }
      }
      InsertOrdered(x, t);
      var u := Insert(x, t);
      assert s[0].1 >= u[0].1 by {
        if u[0] != x {
          assert u[0] == t[0] == s[1];
        }
      }
      var r := [s[0]] + u;
      forall i, j | 0 <= i < j < |r| ensures r[i].1 >= r[j].1 {
        assert r[j] == u[j - 1];
        if i > 0 {
          assert r[i] == u[i - 1];
        } else if j > 1 {
          assert u[0].1 >= u[j - 1].1;
        }
      }
    }
  }

  /** Insertion sort by non-increasing value; equal values stay in order. */
  function Sort<T>(s: Ranked<T>): (r: Ranked<T>)
    ensures |r| == |s|
    ensures multiset(r) == multiset(s)
    decreases |s|
  {
    if s == [] then []
    else
      assert s == [s[0]] + s[1..];
      Insert(s[0], Sort(s[1..]))
  }

  /** The sorted pairs are in order. */
  lemma {:induction false} SortOrdered<T>(s: Ranked<T>)
    ensures Descending(Sort(s))
    decreases |s|
  {
    if s != [] {
      SortOrdered(s[1..]);
      InsertOrdered(s[0], Sort(s[1..]));
    }
  }

  /** Sorting an ordered sequence changes nothing. */
  lemma {:induction false} SortSorted<T>(s: Ranked<T>)
    requires Descending(s)
    ensures Sort(s) == s
    decreases |s|
  {
    if s != [] {
      var t := s[1..];
      assert Descending(t) by {
        forall i, j | 0 <= i < j < |t| ensures t[i].1 >= t[j].1 {
          assert t[i] == s[i + 1] && t[j] == s[j + 1];
        }
      }
      SortSorted(t);
      assert s == [s[0]] + t;
    }
  }

  /** `sortByDesc`: the elements of `s`, ordered by the values `prio` gives them, largest first. */
  function SortByDesc<T>(s: seq<T>, prio: seq<int>): (r: seq<T>)
    requires |prio| == |s|
    ensures |r| == |s|
  {
    Unrank(Sort(Rank(s, prio)))
  }

  lemma UnrankCons<T>(x: (T, int), s: Ranked<T>)
    ensures Unrank([x] + s) == [x.0] + Unrank(s)
  {
    assert forall i | 1 <= i < |s| + 1 :: ([x] + s)[i] == s[i - 1];
  }

  /** Inserting a pair adds its element to the elements. */
  lemma {:induction false} InsertElements<T>(x: (T, int), s: Ranked<T>)
    ensures multiset(Unrank(Insert(x, s))) == multiset(Unrank(s)) + multiset{x.0}
    decreases |s|
  {
    if s == [] || x.1 >= s[0].1 {
      UnrankCons(x, s);
    } else {
      InsertElements(x, s[1..]);
      UnrankCons(s[0], Insert(x, s[1..]));
      UnrankCons(s[0], s[1..]);
      assert s == [s[0]] + s[1..];
    }
  }

  /** Sorting rearranges the elements. */
  lemma {:induction false} SortElements<T>(s: Ranked<T>)
    ensures multiset(Unrank(Sort(s))) == multiset(Unrank(s))
    decreases |s|
  {
    if s != [] {
      SortElements(s[1..]);
      InsertElements(s[0], Sort(s[1..]));
      UnrankCons(s[0], s[1..]);
      assert s == [s[0]] + s[1..];
    }
  }

  /** `sortByDesc` returns a rearrangement of its input. */
  lemma SortByDescPermutes<T>(s: seq<T>, prio: seq<int>)
    requires |prio| == |s|
    ensures multiset(SortByDesc(s, prio)) == multiset(s)
  {
    SortElements(Rank(s, prio));
    assert Unrank(Rank(s, prio)) == s;
  }

  /**
   * When every value is `key` of its element, `sortByDesc` lists the
   * elements by non-increasing `key`.
   */
  lemma SortByDescOrdered<T>(s: seq<T>, prio: seq<int>, key: T -> int)
    requires |prio| == |s|
    requires forall i | 0 <= i < |s| :: prio[i] == key(s[i])
    ensures forall i, j | 0 <= i < j < |s| ::
      key(SortByDesc(s, prio)[i]) >= key(SortByDesc(s, prio)[j])
  {
    var d := Rank(s, prio);
    var t := Sort(d);
    SortOrdered(d);
    forall i | 0 <= i < |t| ensures t[i].1 == key(t[i].0) {
      assert t[i] in multiset(d);
      var k :| 0 <= k < |d| && d[k] == t[i];
    }
  }

  /** `f` applied to every element. */
  function Image<T, U>(f: T -> U, s: seq<T>): (r: seq<U>)
    ensures |r| == |s|
    ensures forall i | 0 <= i < |s| :: r[i] == f(s[i])
  {
    seq(|s|, i requires 0 <= i < |s| => f(s[i]))
  }

  /** `f` applied to the element of every pair; the values stay. */
  function ImageRanked<T, U>(f: T -> U, s: Ranked<T>): (r: Ranked<U>)
    ensures |r| == |s|
    ensures forall i | 0 <= i < |s| :: r[i] == (f(s[i].0), s[i].1)
  {
    seq(|s|, i requires 0 <= i < |s| => (f(s[i].0), s[i].1))
  }

  lemma ImageRankedCons<T, U>(f: T -> U, x: (T, int), s: Ranked<T>)
    ensures ImageRanked(f, [x] + s) == [(f(x.0), x.1)] + ImageRanked(f, s)
  {
    assert forall i | 1 <= i < |s| + 1 :: ([x] + s)[i] == s[i - 1];
  }

  /** Insertion commutes with a map on the elements. */
  lemma {:induction false} InsertImage<T, U>(f: T -> U, x: (T, int), s: Ranked<T>)
    ensures Insert((f(x.0), x.1), ImageRanked(f, s)) == ImageRanked(f, Insert(x, s))
    decreases |s|
  {
    var u := ImageRanked(f, s);
    if s == [] || x.1 >= s[0].1 {
      ImageRankedCons(f, x, s);
    } else {
      InsertImage(f, x, s[1..]);
      assert s == [s[0]] + s[1..];
      ImageRankedCons(f, s[0], s[1..]);
      ImageRankedCons(f, s[0], Insert(x, s[1..]));
    }
  }

  /** Sorting commutes with a map on the elements. */
  lemma {:induction false} SortImage<T, U>(f: T -> U, s: Ranked<T>)
    ensures Sort(ImageRanked(f, s)) == ImageRanked(f, Sort(s))
    decreases |s|
  {
    if s != [] {
      SortImage(f, s[1..]);
      assert s == [s[0]] + s[1..];
      ImageRankedCons(f, s[0], s[1..]);
      InsertImage(f, s[0], Sort(s[1..]));
    }
  }

  /** `sortByDesc` commutes with a map on the elements that keeps their values. */
  lemma SortByDescImage<T, U>(f: T -> U, s: seq<T>, prio: seq<int>)
    requires |prio| == |s|
    ensures SortByDesc(Image(f, s), prio) == Image(f, SortByDesc(s, prio))
  {
    assert Rank(Image(f, s), prio) == ImageRanked(f, Rank(s, prio));
    SortImage(f, Rank(s, prio));
  }
}
