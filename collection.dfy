/**
 * An insertion-ordered collection keyed by strings, the shape of the
 * framework Collection the settings objects keep their children in.
 * `Put` is `$collection->put($key, $value)`: an existing key keeps its
 * position and gets the new value, a new key is appended. `Forget` is
 * `forget($key)` and `Merge` is `merge($other)` (PHP's array_merge on
 * string keys: later values win, first positions are kept).
 */
module Collection {

  type Entries<T> = seq<(string, T)>

  /** The keys, in collection order. */
  function Keys<T>(c: Entries<T>): (r: seq<string>)
    ensures |r| == |c|
    ensures forall i | 0 <= i < |c| :: r[i] == c[i].0
  {
    seq(|c|, i requires 0 <= i < |c| => c[i].0)
  }

  /** No key occurs twice. */
  predicate UniqueKeys<T>(c: Entries<T>)
  {
    forall i, j | 0 <= i < j < |c| :: c[i].0 != c[j].0
  }

  /** The position of the first entry with key `k`, or `|c|` when there is none. */
  function IndexOf<T>(c: Entries<T>, k: string): (i: nat)
    ensures i <= |c|
    ensures i < |c| ==> c[i].0 == k
    ensures forall j | 0 <= j < i :: c[j].0 != k
  {
    if c == [] then 0
    else if c[0].0 == k then 0
    else 1 + IndexOf(c[1..], k)
  }

  /** `$collection->has($key)`. */
  predicate Has<T>(c: Entries<T>, k: string)
  {
    IndexOf(c, k) < |c|
  }

  /** A key is present iff some entry carries it. */
  lemma HasAt<T>(c: Entries<T>, k: string)
    ensures Has(c, k) <==> exists i | 0 <= i < |c| :: c[i].0 == k
  {
  }

  /** `$collection->get($key)` for a key that is present. */
  function Get<T>(c: Entries<T>, k: string): (v: T)
    requires Has(c, k)
    ensures (k, v) in c
    ensures UniqueKeys(c) ==> forall i | 0 <= i < |c| && c[i].0 == k :: c[i].1 == v
  {
    c[IndexOf(c, k)].1
  }

  /** `$collection->put($key, $value)`. */
  function Put<T>(c: Entries<T>, k: string, v: T): (r: Entries<T>)
    ensures |r| >= |c|
    ensures Has(r, k)
    ensures Has(c, k) ==> |r| == |c| && Keys(r) == Keys(c)
    ensures !Has(c, k) ==> r == c + [(k, v)]
    ensures forall i | 0 <= i < |c| && c[i].0 != k :: r[i] == c[i]
    ensures UniqueKeys(c) ==> UniqueKeys(r) && Get(r, k) == v
    ensures forall e | e in r :: e in c || e == (k, v)
    ensures forall k' | Has(r, k') :: Has(c, k') || k' == k
  {
    var i := IndexOf(c, k);
    if i < |c| then
      assert c[i := (k, v)][i].0 == k;
      c[i := (k, v)]
    else
      assert (c + [(k, v)])[|c|].0 == k;
      c + [(k, v)]
  }

  /** With unique keys, `put` on a present key overwrites that key's own position. */
  lemma PutAt<T>(c: Entries<T>, i: int, k: string, v: T)
    requires UniqueKeys(c) && 0 <= i < |c| && c[i].0 == k
    ensures Put(c, k, v) == c[i := (k, v)]
  {
    assert IndexOf(c, k) == i;
  }

  /** Putting back the entry already at a key changes nothing. */
  lemma PutPresent<T>(c: Entries<T>, i: int, k: string, v: T)
    requires UniqueKeys(c) && 0 <= i < |c| && c[i] == (k, v)
    ensures Put(c, k, v) == c
  {
    PutAt(c, i, k, v);
    assert c[i := (k, v)] == c;
  }

  /** `$collection->forget($key)`: drops the entries with key `k`, keeping the order of the rest. */
  function Forget<T>(c: Entries<T>, k: string): (r: Entries<T>)
    ensures !Has(r, k)
    ensures forall e | e in r :: e in c
    ensures forall e | e in c && e.0 != k :: e in r
    ensures |r| <= |c|
  {
    if c == [] then []
    else if c[0].0 == k then Forget(c[1..], k)
    else [c[0]] + Forget(c[1..], k)
  }

  /** Forgetting a key that is absent changes nothing. */
  lemma {:induction false} ForgetAbsent<T>(c: Entries<T>, k: string)
    requires !Has(c, k)
    ensures Forget(c, k) == c
  {
    if c != [] {
      assert c[0].0 != k;
      assert !Has(c[1..], k) by {
        forall i | 0 <= i < |c[1..]| ensures c[1..][i].0 != k {
          assert c[1..][i] == c[i + 1];
        }
      }
      ForgetAbsent(c[1..], k);
    }
  }

  /** The tail of a collection with unique keys has unique keys, none of them the head's. */
  lemma TailUnique<T>(c: Entries<T>)
    requires UniqueKeys(c) && c != []
    ensures UniqueKeys(c[1..])
    ensures forall e | e in c[1..] :: e.0 != c[0].0
  {
    assert forall j | 0 <= j < |c[1..]| :: c[1..][j] == c[j + 1];
  }

  /** An entry whose key the collection lacks can be put in front. */
  lemma ConsUnique<T>(x: (string, T), c: Entries<T>)
    requires UniqueKeys(c) && forall e | e in c :: e.0 != x.0
    ensures UniqueKeys([x] + c)
  {
    var r := [x] + c;
    forall i, j | 0 <= i < j < |r| ensures r[i].0 != r[j].0 {
      assert r[j] == c[j - 1];
      if i > 0 {
        assert r[i] == c[i - 1];
      }
    }
  }

  /** Forgetting keeps the keys unique. */
  lemma {:induction false} ForgetUnique<T>(c: Entries<T>, k: string)
    requires UniqueKeys(c)
    ensures UniqueKeys(Forget(c, k))
  {
    if c != [] {
      TailUnique(c);
      ForgetUnique(c[1..], k);
      if c[0].0 != k {
        ConsUnique(c[0], Forget(c[1..], k));
      }
    }
  }

  /** With unique keys, `forget` cuts out the key's one entry and the rest keep their order. */
  lemma {:induction false} ForgetAt<T>(c: Entries<T>, k: string)
    requires UniqueKeys(c) && Has(c, k)
    ensures Forget(c, k) == c[..IndexOf(c, k)] + c[IndexOf(c, k) + 1..]
  {
    TailUnique(c);
    var t := c[1..];
    if c[0].0 == k {
      forall i | 0 <= i < |t| ensures t[i].0 != k {
        assert t[i] in t;
      }
      ForgetAbsent(t, k);
      assert c[..0] + t == t;
    } else {
      ForgetAt(t, k);
      CutCons(c, IndexOf(t, k));
    }
  }

  /** Cutting position `j + 1` out of `c` is keeping the head and cutting `j` out of the tail. */
  lemma CutCons<T>(c: seq<T>, j: int)
    requires 0 <= j < |c| - 1
    ensures c[..j + 1] + c[j + 2..] == [c[0]] + (c[1..][..j] + c[1..][j + 1..])
  {
    assert c[..j + 1] == [c[0]] + c[1..][..j];
    assert c[j + 2..] == c[1..][j + 1..];
  }

  /** Every value replaced by its image under `f`, keys and order kept. */
  function MapValues<T, U>(c: Entries<T>, f: T -> U): (r: Entries<U>)
    ensures |r| == |c|
    ensures forall i | 0 <= i < |c| :: r[i] == (c[i].0, f(c[i].1))
  {
    seq(|c|, i requires 0 <= i < |c| => (c[i].0, f(c[i].1)))
  }

  /** Forgetting a key commutes with mapping the values. */
  lemma {:induction false} ForgetMapValues<T, U>(c: Entries<T>, k: string, f: T -> U)
    ensures Forget(MapValues(c, f), k) == MapValues(Forget(c, k), f)
  {
    if c != [] {
      var m := MapValues(c, f);
      assert m[1..] == MapValues(c[1..], f);
      ForgetMapValues(c[1..], k, f);
      if c[0].0 != k {
        assert MapValues([c[0]] + Forget(c[1..], k), f) == [m[0]] + MapValues(Forget(c[1..], k), f);
      }
    }
  }

  lemma {:induction false} IndexOfMapValues<T, U>(c: Entries<T>, k: string, f: T -> U)
    ensures IndexOf(MapValues(c, f), k) == IndexOf(c, k)
    decreases |c|
  {
    if c != [] {
      assert MapValues(c, f)[1..] == MapValues(c[1..], f);
      IndexOfMapValues(c[1..], k, f);
    }
  }

  /** Putting commutes with mapping the values. */
  lemma PutMapValues<T, U>(c: Entries<T>, k: string, v: T, f: T -> U)
    ensures Put(MapValues(c, f), k, f(v)) == MapValues(Put(c, k, v), f)
  {
    IndexOfMapValues(c, k, f);
    var i := IndexOf(c, k);
    if i < |c| {
      assert MapValues(c, f)[i := (k, f(v))] == MapValues(c[i := (k, v)], f);
    } else {
      assert MapValues(c, f) + [(k, f(v))] == MapValues(c + [(k, v)], f);
    }
  }

  /** `$a->merge($b)`: every entry of `b`, in order, is put into `a`. */
  function Merge<T>(a: Entries<T>, b: Entries<T>): (r: Entries<T>)
    ensures UniqueKeys(a) ==> UniqueKeys(r)
    decreases |b|
  {
    if b == [] then a else Merge(Put(a, b[0].0, b[0].1), b[1..])
  }

  /** Every merged entry is an entry of one of the two sources. */
  lemma {:induction false} MergeFrom<T>(a: Entries<T>, b: Entries<T>, e: (string, T))
    requires e in Merge(a, b)
    ensures e in a || e in b
    decreases |b|
  {
    if b != [] {
      MergeFrom(Put(a, b[0].0, b[0].1), b[1..], e);
      if e in b[1..] {
        var j :| 0 <= j < |b[1..]| && b[1..][j] == e;
        assert b[j + 1] == e;
      }
    }
  }

  /** A merged collection holds a key iff one of its two sources does. */
  lemma {:induction false} MergeHas<T>(a: Entries<T>, b: Entries<T>, k: string)
    ensures Has(Merge(a, b), k) <==> Has(a, k) || Has(b, k)
    decreases |b|
  {
    if b != [] {
      var a' := Put(a, b[0].0, b[0].1);
      MergeHas(a', b[1..], k);
      if Has(a, k) {
        var i :| 0 <= i < |a| && a[i].0 == k;
        if a[i].0 != b[0].0 { assert a'[i] == a[i]; } else { assert Has(a', b[0].0); }
      }
      if Has(b[1..], k) {
        var i :| 0 <= i < |b[1..]| && b[1..][i].0 == k;
        assert b[i + 1].0 == k;
      }
      if Has(b, k) && b[0].0 != k {
        var i :| 0 <= i < |b| && b[i].0 == k;
        assert b[1..][i - 1].0 == k;
      }
    }
  }

  /** Later wins: the merged value under `k` comes from `b` when `b` has `k`, otherwise from `a`. */
  lemma {:induction false} MergeGet<T>(a: Entries<T>, b: Entries<T>, k: string)
    requires UniqueKeys(a) && UniqueKeys(b)
    requires Has(a, k) || Has(b, k)
    ensures Has(Merge(a, b), k)
    ensures Get(Merge(a, b), k) == if Has(b, k) then Get(b, k) else Get(a, k)
    decreases |b|
  {
    MergeHas(a, b, k);
    if b != [] {
      var a' := Put(a, b[0].0, b[0].1);
      assert UniqueKeys(b[1..]) by {
        forall i, j | 0 <= i < j < |b[1..]| ensures b[1..][i].0 != b[1..][j].0 {
          assert b[1..][i] == b[i + 1] && b[1..][j] == b[j + 1];
        }
      }
      var inRest := Has(b[1..], k);
      if inRest {
        var i :| 0 <= i < |b[1..]| && b[1..][i].0 == k;
        assert b[i + 1].0 == k;
        assert Has(b, k);
        MergeGet(a', b[1..], k);
        assert (k, Get(b[1..], k)) in b;
        assert b[0].0 != k;
      } else if b[0].0 == k {
        assert Has(a', k);
        MergeGet(a', b[1..], k);
        assert Get(a', k) == b[0].1;
      } else {
        assert !Has(b, k) by {
          forall i | 0 <= i < |b| ensures b[i].0 != k {
            if i > 0 { assert b[1..][i - 1] == b[i]; }
          }
        }
        var i :| 0 <= i < |a| && a[i].0 == k;
        assert a'[i] == a[i];
        MergeGet(a', b[1..], k);
      }
    }
  }

  /** A rearrangement of a collection with unique keys has unique keys. */
  lemma PermutationUniqueKeys<T>(a: Entries<T>, b: Entries<T>)
    requires multiset(a) == multiset(b) && UniqueKeys(b)
    ensures UniqueKeys(a)
  {
    forall i, j | 0 <= i < j < |a|
      ensures a[i].0 != a[j].0
    {
      assert a[i] in multiset(b) && a[j] in multiset(b);
      var p :| 0 <= p < |b| && b[p] == a[i];
      var q :| 0 <= q < |b| && b[q] == a[j];
      if a[i] == a[j] {
        CountTwo(a, i, j);
        CountOne(b, p);
      }
    }
  }

  lemma CountTwo<T>(s: seq<T>, i: int, j: int)
    requires 0 <= i < j < |s| && s[i] == s[j]
    ensures multiset(s)[s[i]] >= 2
  {
    assert s == s[..i] + [s[i]] + (s[i + 1..j] + [s[j]] + s[j + 1..]);
  }

  lemma {:induction false} CountOne<T>(c: Entries<T>, p: int)
    requires UniqueKeys(c) && 0 <= p < |c|
    ensures multiset(c)[c[p]] == 1
  {
    if p == 0 {
      assert c == [c[0]] + c[1..];
      assert c[0] !in c[1..] by {
        forall i | 0 <= i < |c[1..]| ensures c[1..][i] != c[0] {
          assert c[1..][i] == c[i + 1];
        }
      }
    } else {
      assert c == [c[0]] + c[1..];
      assert UniqueKeys(c[1..]) by {
        forall i, j | 0 <= i < j < |c[1..]| ensures c[1..][i].0 != c[1..][j].0 {
          assert c[1..][i] == c[i + 1] && c[1..][j] == c[j + 1];
        }
      }
      CountOne(c[1..], p - 1);
      assert c[1..][p - 1] == c[p] && c[0] != c[p];
    }
  }

  /** A rearrangement holds the same keys, under the same values when keys are unique. */
  lemma PermutationGet<T>(a: Entries<T>, b: Entries<T>, k: string)
    requires multiset(a) == multiset(b) && UniqueKeys(b)
    ensures Has(a, k) <==> Has(b, k)
    ensures Has(b, k) ==> Get(a, k) == Get(b, k)
  {
    PermutationUniqueKeys(a, b);
    if Has(a, k) {
      var i :| 0 <= i < |a| && a[i].0 == k;
      assert a[i] in multiset(b);
    }
    if Has(b, k) {
      var i :| 0 <= i < |b| && b[i].0 == k;
      assert b[i] in multiset(a);
      assert (k, Get(b, k)) in multiset(a);
    }
  }

  /** `merge` applied to a run of collections, starting from an empty one. */
  function MergeAll<T>(ls: seq<Entries<T>>): (r: Entries<T>)
    ensures UniqueKeys(r)
    decreases |ls|
  {
    if ls == [] then [] else Merge(MergeAll(ls[..|ls| - 1]), ls[|ls| - 1])
  }

  /** A key held by one of the collections is held by the merged run. */
  lemma {:induction false} MergeAllHas<T>(ls: seq<Entries<T>>, k: string, i: int)
    requires 0 <= i < |ls| && Has(ls[i], k)
    ensures Has(MergeAll(ls), k)
    decreases |ls|
  {
    var n := |ls| - 1;
    var init := ls[..n];
    var m := MergeAll(init);
    assert MergeAll(ls) == Merge(m, ls[n]);
    if i < n {
      assert init[i] == ls[i];
      MergeAllHas(init, k, i);
      MergeHas(m, ls[n], k);
    } else {
      MergeHas(m, ls[n], k);
    }
  }

  /** A key held by the merged run is held by one of the collections, which is returned. */
  lemma {:induction false} MergeAllSource<T>(ls: seq<Entries<T>>, k: string) returns (i: int)
    requires Has(MergeAll(ls), k)
    ensures 0 <= i < |ls| && Has(ls[i], k)
    decreases |ls|
  {
    var n := |ls| - 1;
    var init := ls[..n];
    MergeHas(MergeAll(init), ls[n], k);
    if Has(ls[n], k) {
      i := n;
    } else {
      i := MergeAllSource(init, k);
      assert init[i] == ls[i];
    }
  }

  /** Every entry of the merged run is an entry of one of the collections, which is returned. */
  lemma {:induction false} MergeAllFrom<T>(ls: seq<Entries<T>>, e: (string, T)) returns (i: int)
    requires e in MergeAll(ls)
    ensures 0 <= i < |ls| && e in ls[i]
    decreases |ls|
  {
    var n := |ls| - 1;
    var init := ls[..n];
    MergeFrom(MergeAll(init), ls[n], e);
    if e in ls[n] {
      i := n;
    } else {
      i := MergeAllFrom(init, e);
      assert init[i] == ls[i];
    }
  }

  /** Under a key, the merged run holds the value of the last collection that has the key. */
  lemma {:induction false} MergeAllGet<T>(ls: seq<Entries<T>>, k: string, j: int)
    requires forall i | 0 <= i < |ls| :: UniqueKeys(ls[i])
    requires 0 <= j < |ls| && Has(ls[j], k)
    requires forall l | j < l < |ls| :: !Has(ls[l], k)
    ensures Has(MergeAll(ls), k) && Get(MergeAll(ls), k) == Get(ls[j], k)
    decreases |ls|
  {
    var n := |ls| - 1;
    var init := ls[..n];
    var m := MergeAll(init);
    if j == n {
      MergeGet(m, ls[n], k);
    } else {
      assert forall i | 0 <= i < n :: init[i] == ls[i];
      MergeAllGet(init, k, j);
      MergeGet(m, ls[n], k);
    }
  }
}
