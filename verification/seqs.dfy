/** Sequence operations standing in for the LINQ and List<T> calls the services
    make: `Where`, `Sum`, `FirstOrDefault`, `Contains`/`Add` with set semantics,
    and the stable `OrderBy`. */
module Seqs {
  import opened Optional

  /** `Where(p)`: the elements satisfying `p`, in their original order. */
  function Filter<T>(xs: seq<T>, p: T -> bool): (r: seq<T>)
    ensures |r| <= |xs|
    ensures forall i | 0 <= i < |r| :: p(r[i])
  {
    if |xs| == 0 then []
    else if p(xs[0]) then [xs[0]] + Filter(xs[1..], p)
    else Filter(xs[1..], p)
  }

  lemma {:induction false} FilterMembership<T>(xs: seq<T>, p: T -> bool, x: T)
    ensures x in Filter(xs, p) <==> x in xs && p(x)
    decreases |xs|
  {
    if |xs| > 0 {
      FilterMembership(xs[1..], p, x);
      assert x in xs <==> x == xs[0] || x in xs[1..] by {
        assert xs == [xs[0]] + xs[1..];
      }
    }
  }

  lemma FilterCons<T>(x: T, ys: seq<T>, p: T -> bool)
    ensures Filter([x] + ys, p) == (if p(x) then [x] else []) + Filter(ys, p)
  {
    assert ([x] + ys)[1..] == ys;
  }

  lemma {:induction false} FilterAppend<T>(xs: seq<T>, x: T, p: T -> bool)
    ensures Filter(xs + [x], p) == Filter(xs, p) + (if p(x) then [x] else [])
    decreases |xs|
  {
    if |xs| == 0 {
      assert xs + [x] == [x];
    } else {
      assert (xs + [x])[1..] == xs[1..] + [x];
      FilterAppend(xs[1..], x, p);
    }
  }

  /** Filtering with a predicate that rejects everything gives the empty sequence. */
  lemma {:induction false} FilterNone<T>(xs: seq<T>, p: T -> bool)
    requires forall i | 0 <= i < |xs| :: !p(xs[i])
    ensures Filter(xs, p) == []
    decreases |xs|
  {
    if |xs| > 0 {
      FilterNone(xs[1..], p);
    }
  }

  /** `Sum(f)`: the sum of `f` over the elements, 0 for the empty sequence. */
  function SumOf<T>(xs: seq<T>, f: T -> int): int
  {
    if |xs| == 0 then 0 else f(xs[0]) + SumOf(xs[1..], f)
  }

  lemma {:induction false} SumAppend<T>(xs: seq<T>, x: T, f: T -> int)
    ensures SumOf(xs + [x], f) == SumOf(xs, f) + f(x)
    decreases |xs|
  {
    if |xs| == 0 {
      assert xs + [x] == [x];
    } else {
      assert (xs + [x])[1..] == xs[1..] + [x];
      SumAppend(xs[1..], x, f);
    }
  }

  lemma {:induction false} SumNonNegative<T>(xs: seq<T>, f: T -> int)
    requires forall i | 0 <= i < |xs| :: f(xs[i]) >= 0
    ensures SumOf(xs, f) >= 0
    decreases |xs|
  {
    if |xs| > 0 {
      SumNonNegative(xs[1..], f);
    }
  }

  lemma {:induction false} SumNonNegativeFilter<T>(xs: seq<T>, p: T -> bool, f: T -> int)
    ensures (forall i | 0 <= i < |xs| && p(xs[i]) :: f(xs[i]) >= 0) ==> SumOf(Filter(xs, p), f) >= 0
    decreases |xs|
  {
    if |xs| > 0 {
      SumNonNegativeFilter(xs[1..], p, f);
      if forall i | 0 <= i < |xs| && p(xs[i]) :: f(xs[i]) >= 0 {
        assert forall i | 0 <= i < |xs| - 1 && p(xs[1..][i]) :: f(xs[1..][i]) >= 0 by {
          forall i | 0 <= i < |xs| - 1 && p(xs[1..][i])
            ensures f(xs[1..][i]) >= 0
          {
            assert xs[1..][i] == xs[i + 1];
          }
        }
      }
    }
  }

  /** Narrowing a filter (every element `q` keeps, `p` keeps too) cannot increase
      the sum when the elements `p` keeps have non-negative values. */
  lemma {:induction false} SumFilterMonotone<T>(xs: seq<T>, p: T -> bool, q: T -> bool, f: T -> int)
    requires forall i | 0 <= i < |xs| :: q(xs[i]) ==> p(xs[i])
    requires forall i | 0 <= i < |xs| :: p(xs[i]) ==> f(xs[i]) >= 0
    ensures SumOf(Filter(xs, q), f) <= SumOf(Filter(xs, p), f)
    decreases |xs|
  {
    if |xs| > 0 {
      assert forall i | 0 <= i < |xs| - 1 :: xs[1..][i] == xs[i + 1];
      SumFilterMonotone(xs[1..], p, q, f);
    }
  }

  /** Replacing the element at `k` changes the sum over a filter by what the new
      element contributes minus what the old one did. */
  lemma {:induction false} SumFilterUpdate<T>(xs: seq<T>, k: int, y: T, p: T -> bool, f: T -> int)
    requires 0 <= k < |xs|
    ensures SumOf(Filter(xs[k := y], p), f)
         == SumOf(Filter(xs, p), f) - (if p(xs[k]) then f(xs[k]) else 0) + (if p(y) then f(y) else 0)
    decreases |xs|
  {
    if k == 0 {
      assert xs[k := y][1..] == xs[1..];
    } else {
      assert xs[k := y][1..] == xs[1..][k - 1 := y];
      SumFilterUpdate(xs[1..], k - 1, y, p, f);
    }
  }

  /** `FirstOrDefault(p)`, as the position of the first element satisfying `p`. */
  function FirstIndex<T>(xs: seq<T>, p: T -> bool): (r: Option<nat>)
    ensures r.None? <==> forall i | 0 <= i < |xs| :: !p(xs[i])
    ensures r.Some? ==> r.value < |xs| && p(xs[r.value])
    ensures r.Some? ==> forall j | 0 <= j < r.value :: !p(xs[j])
  {
    if |xs| == 0 then None
    else if p(xs[0]) then Some(0)
    else match FirstIndex(xs[1..], p)
      case None => None
      case Some(i) => Some(i + 1)
  }

  /** No element occurs twice. */
  predicate NoDup<T(==)>(xs: seq<T>)
  {
    forall i, j | 0 <= i < j < |xs| :: xs[i] != xs[j]
  }

  /** `if (!list.Contains(x)) list.Add(x)`: a list used as an insertion-ordered set. */
  function AddIfAbsent<T(==)>(xs: seq<T>, x: T): (r: seq<T>)
    ensures x in r
    ensures forall i | 0 <= i < |r| :: r[i] in xs || r[i] == x
    ensures |xs| <= |r| && r[..|xs|] == xs
    ensures |r| == if x in xs then |xs| else |xs| + 1
    ensures NoDup(xs) ==> NoDup(r)
  {
    if x in xs then xs else xs + [x]
  }

  // ---------------------------------------------------------------------------
  // Stable sorting by an integer key (LINQ `OrderBy`).

  ghost predicate SortedBy<T>(xs: seq<T>, key: T -> int)
  {
    forall i, j | 0 <= i < j < |xs| :: key(xs[i]) <= key(xs[j])
  }

  /** The elements whose key is `k`. */
  function HasKey<T>(key: T -> int, k: int): T -> bool
  {
    x => key(x) == k
  }

  /** `p` is closed upwards along `key`: once it holds, it holds for every larger key. */
  ghost predicate UpwardClosed<T(!new)>(key: T -> int, p: T -> bool)
  {
    forall a, b | key(a) <= key(b) && p(a) :: p(b)
  }

  /** Puts `x` in front of the first element whose key is at least `x`'s. */
  function Insert<T>(x: T, ys: seq<T>, key: T -> int): (r: seq<T>)
    ensures multiset(r) == multiset(ys) + multiset{x}
    ensures |r| == |ys| + 1
  {
    if |ys| == 0 then [x]
    else if key(x) <= key(ys[0]) then [x] + ys
    else
      assert ys == [ys[0]] + ys[1..];
      [ys[0]] + Insert(x, ys[1..], key)
  }

  lemma {:induction false} InsertSorted<T>(x: T, ys: seq<T>, key: T -> int)
    requires SortedBy(ys, key)
    ensures SortedBy(Insert(x, ys, key), key)
    decreases |ys|
  {
    if |ys| > 0 && key(x) > key(ys[0]) {
      InsertSorted(x, ys[1..], key);
      var r := Insert(x, ys[1..], key);
      forall e | e in r
        ensures key(ys[0]) <= key(e)
      {
        assert e in multiset(r);
        assert e == x || e in multiset(ys[1..]);
      }
    }
  }

  /** Elements with the key `k` come out of `Insert` in the order they went in,
      `x` ahead of the ones already present. */
  lemma InsertKeySlice<T>(x: T, ys: seq<T>, key: T -> int, k: int)
    ensures Filter(Insert(x, ys, key), HasKey(key, k))
         == (if key(x) == k then [x] else []) + Filter(ys, HasKey(key, k))
  {
    InsertClassSlice(x, ys, key, k, HasKey(key, k));
  }

  /** `InsertKeySlice` for any predicate `p` that picks out the key `k`. */
  lemma {:induction false} InsertClassSlice<T>(x: T, ys: seq<T>, key: T -> int, k: int, p: T -> bool)
    requires forall y :: p(y) == (key(y) == k)
    ensures Filter(Insert(x, ys, key), p) == (if p(x) then [x] else []) + Filter(ys, p)
    decreases |ys|
  {
    if |ys| == 0 {
      FilterCons(x, [], p);
    } else if key(x) <= key(ys[0]) {
      FilterCons(x, ys, p);
    } else {
      InsertClassSlice(x, ys[1..], key, k, p);
      FilterCons(ys[0], Insert(x, ys[1..], key), p);
      FilterCons(ys[0], ys[1..], p);
      assert [ys[0]] + ys[1..] == ys;
    }
  }

  /** Filtering with an upward-closed predicate commutes with insertion. */
  lemma {:induction false} InsertFilter<T(!new)>(x: T, ys: seq<T>, key: T -> int, p: T -> bool)
    requires UpwardClosed(key, p)
    ensures Filter(Insert(x, ys, key), p)
         == if p(x) then Insert(x, Filter(ys, p), key) else Filter(ys, p)
    decreases |ys|
  {
    if |ys| > 0 {
      if key(x) <= key(ys[0]) {
        if p(x) {
          assert p(ys[0]);
        }
      } else {
        InsertFilter(x, ys[1..], key, p);
      }
    }
  }

  /** `OrderBy(key)`: a stable sort. The result is ordered by key, a permutation
      of the input, and for every key it keeps the input's relative order of the
      elements that share it — which pins the result down completely. */
  function SortBy<T>(xs: seq<T>, key: T -> int): (r: seq<T>)
    ensures SortedBy(r, key)
    ensures multiset(r) == multiset(xs)
    ensures |r| == |xs|
    ensures forall k :: Filter(r, HasKey(key, k)) == Filter(xs, HasKey(key, k))
  {
    if |xs| == 0 then []
    else
      var rest := SortBy(xs[1..], key);
      SortByStep(xs, rest, key);
      Insert(xs[0], rest, key)
  }

  /** Inserting the head into the sorted tail keeps all of `SortBy`'s promises. */
  lemma SortByStep<T>(xs: seq<T>, rest: seq<T>, key: T -> int)
    requires |xs| > 0
    requires SortedBy(rest, key)
    requires multiset(rest) == multiset(xs[1..])
    requires forall k :: Filter(rest, HasKey(key, k)) == Filter(xs[1..], HasKey(key, k))
    ensures SortedBy(Insert(xs[0], rest, key), key)
    ensures multiset(Insert(xs[0], rest, key)) == multiset(xs)
    ensures forall k :: Filter(Insert(xs[0], rest, key), HasKey(key, k)) == Filter(xs, HasKey(key, k))
  {
    InsertSorted(xs[0], rest, key);
    assert xs == [xs[0]] + xs[1..];
    forall k
      ensures Filter(Insert(xs[0], rest, key), HasKey(key, k)) == Filter(xs, HasKey(key, k))
    {
      InsertKeySlice(xs[0], rest, key, k);
      FilterCons(xs[0], xs[1..], HasKey(key, k));
    }
  }

  /** Sorting then filtering with an upward-closed predicate equals filtering then
      sorting: "the upcoming events, ordered" is "the ordered events, the upcoming
      ones". */
  lemma {:induction false} SortFilterCommute<T(!new)>(xs: seq<T>, key: T -> int, p: T -> bool)
    requires UpwardClosed(key, p)
    ensures SortBy(Filter(xs, p), key) == Filter(SortBy(xs, key), p)
    decreases |xs|
  {
    if |xs| > 0 {
      SortFilterCommute(xs[1..], key, p);
      InsertFilter(xs[0], SortBy(xs[1..], key), key, p);
    }
  }
}
