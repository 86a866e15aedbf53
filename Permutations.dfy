/**
 * Transposition keys: what it means for a key to be a permutation of
 * `0 .. K - 1`, why `key.index(i)` succeeding for every `i` is the same
 * thing, and the argsort `decrypt` uses to invert a key.
 */
module Permutations {
  import opened Builtins

  predicate Distinct<T(==)>(s: seq<T>)
  {
    forall a, b :: 0 <= a < b < |s| ==> s[a] != s[b]
  }

  /** A repetition-free sequence holds each value at most once. */
  lemma {:induction false} DistinctCount<T>(t: seq<T>, x: T)
    requires Distinct(t)
    ensures multiset(t)[x] <= 1
  {
    if t != [] {
      var tail := t[1..];
      assert t == [t[0]] + tail;
      assert Distinct(tail) by {
        forall a, b | 0 <= a < b < |tail| ensures tail[a] != tail[b] {
          assert tail[a] == t[a + 1] && tail[b] == t[b + 1];
        }
      }
      DistinctCount(tail, x);
      if t[0] == x {
        assert x !in tail;
      }
    }
  }

  /** A sequence with the same elements, counted with multiplicity, as a repetition-free one repeats nothing either. */
  lemma SameMultisetDistinct<T>(s: seq<T>, t: seq<T>)
    requires multiset(s) == multiset(t) && Distinct(t)
    ensures Distinct(s)
  {
    forall a, b | 0 <= a < b < |s| ensures s[a] != s[b] {
      if s[a] == s[b] {
        assert s == s[..a] + [s[a]] + s[a + 1..b] + [s[b]] + s[b + 1..];
        assert multiset(s)[s[a]] >= 2;
        DistinctCount(t, s[a]);
        assert false;
      }
    }
  }

  /** A permutation of `0 .. |key| - 1`: every value in range, none twice. */
  predicate IsPermutation(key: seq<int>)
  {
    Distinct(key) && forall a :: 0 <= a < |key| ==> 0 <= key[a] < |key|
  }

  /** `key.index(v)` succeeds for every `v` in `range(len(key))`. */
  predicate Covers(key: seq<int>)
  {
    forall v :: 0 <= v < |key| ==> v in key
  }

  function Elements(s: seq<int>): set<int>
  {
    set x | x in s
  }

  /** The values `0 .. n - 1`. */
  function Below(n: nat): (b: set<int>)
    ensures forall v :: v in b <==> 0 <= v < n
  {
    Elements(Range(n))
  }

  /** A sequence has at most as many distinct elements as positions; exactly as many iff it repeats none. */
  lemma {:induction false} ElementsCard(s: seq<int>)
    ensures |Elements(s)| <= |s|
    ensures |Elements(s)| == |s| <==> Distinct(s)
  {
    if s != [] {
      var t := s[1..];
      ElementsCard(t);
      assert Elements(s) == {s[0]} + Elements(t);
      if s[0] in t {
        assert Elements(s) == Elements(t);
        var b := IndexOf(t, s[0]);
        assert s[b + 1] == s[0];
      } else {
        assert |Elements(s)| == 1 + |Elements(t)|;
        if Distinct(s) {
          forall a, b | 0 <= a < b < |t| ensures t[a] != t[b] {
            assert t[a] == s[a + 1] && t[b] == s[b + 1];
          }
        }
        if Distinct(t) {
          forall a, b | 0 <= a < b < |s| ensures s[a] != s[b] {
            assert s[b] == t[b - 1];
            if a > 0 {
              assert s[a] == t[a - 1];
            }
          }
        }
      }
    }
  }

  lemma {:induction false} BelowCard(n: nat)
    ensures |Below(n)| == n
  {
    if n > 0 {
      BelowCard(n - 1);
      assert Below(n) == Below(n - 1) + {n - 1};
      assert n - 1 !in Below(n - 1);
    }
  }

  lemma SubsetCard(a: set<int>, b: set<int>)
    requires a <= b
    ensures |a| <= |b|
    ensures |a| == |b| ==> a == b
  {
    assert b == a + (b - a);
    assert a * (b - a) == {};
  }

  /**
   * Pigeonhole: a key of length K in which every one of `0 .. K - 1` can be
   * found is a permutation, and a permutation contains every one of them.
   */
  lemma PermutationIffCovers(key: seq<int>)
    ensures IsPermutation(key) <==> Covers(key)
  {
    var k := |key|;
    ElementsCard(key);
    BelowCard(k);
    if IsPermutation(key) {
      assert Elements(key) <= Below(k);
      SubsetCard(Elements(key), Below(k));
      forall v | 0 <= v < k ensures v in key {
        assert v in Below(k);
      }
    }
    if Covers(key) {
      assert Below(k) <= Elements(key) by {
        forall v | v in Below(k) ensures v in Elements(key) {
          assert v in key;
        }
      }
      SubsetCard(Below(k), Elements(key));
      forall a | 0 <= a < k ensures 0 <= key[a] < k {
        assert key[a] in Elements(key);
      }
    }
  }

  /** In a permutation, `key.index(key[i])` is `i`. */
  lemma IndexOfPermutation(key: seq<int>, i: int)
    requires IsPermutation(key) && 0 <= i < |key|
    ensures IndexOf(key, key[i]) == i
  {
  }

  /**
   * The order `sorted(range(K), key=lambda k: key[k])` puts indices in:
   * by key value, and, Python's sort being stable, by index among equal
   * values.
   */
  predicate SortsBefore(key: seq<int>, a: int, b: int)
    requires 0 <= a < |key| && 0 <= b < |key|
  {
    key[a] < key[b] || (key[a] == key[b] && a <= b)
  }

  predicate InBounds(key: seq<int>, s: seq<int>)
  {
    forall i :: 0 <= i < |s| ==> 0 <= s[i] < |key|
  }

  predicate SortedBy(key: seq<int>, s: seq<int>)
    requires InBounds(key, s)
  {
    forall a, b :: 0 <= a < b < |s| ==> SortsBefore(key, s[a], s[b])
  }

  /** Inserts index `x` into `s` in front of the first index it sorts before. */
  function Insert(key: seq<int>, x: int, s: seq<int>): (r: seq<int>)
    requires 0 <= x < |key| && InBounds(key, s)
    ensures |r| == |s| + 1 && InBounds(key, r)
    ensures forall y :: y in r <==> y == x || y in s
    ensures Distinct(s) && x !in s ==> Distinct(r)
    ensures SortedBy(key, s) ==> SortedBy(key, r)
  {
    if s == [] then [x]
    else if SortsBefore(key, x, s[0]) then
      ConsSorted(key, x, s);
      [x] + s
    else
      var t := Insert(key, x, s[1..]);
      ConsSorted(key, s[0], t);
      [s[0]] + t
  }

  /**
   * Putting `y` in front of `t` keeps `t` sorted when `y` sorts before
   * `t`'s first element (or before all of it), and keeps it repetition-free
   * when `y` is new.
   */
  lemma ConsSorted(key: seq<int>, y: int, t: seq<int>)
    requires 0 <= y < |key| && InBounds(key, t)
    ensures InBounds(key, [y] + t)
    ensures Distinct(t) && y !in t ==> Distinct([y] + t)
    ensures SortedBy(key, t) && (t == [] || SortsBefore(key, y, t[0])) ==> SortedBy(key, [y] + t)
    ensures SortedBy(key, t) && (forall z :: z in t ==> SortsBefore(key, y, z)) ==> SortedBy(key, [y] + t)
  {
    var r := [y] + t;
    if Distinct(t) && y !in t {
      forall a, b | 0 <= a < b < |r| ensures r[a] != r[b] {
        assert r[b] == t[b - 1];
        if a > 0 {
          assert r[a] == t[a - 1];
        }
      }
    }
    if SortedBy(key, t) && (t == [] || SortsBefore(key, y, t[0])) {
      forall a, b | 0 <= a < b < |r| ensures SortsBefore(key, r[a], r[b]) {
        assert r[b] == t[b - 1];
        if a > 0 {
          assert r[a] == t[a - 1];
        } else if b > 1 {
          assert SortsBefore(key, t[0], t[b - 1]);
        }
      }
    }
    if SortedBy(key, t) && (forall z :: z in t ==> SortsBefore(key, y, z)) {
      forall a, b | 0 <= a < b < |r| ensures SortsBefore(key, r[a], r[b]) {
        assert r[b] == t[b - 1];
        if a > 0 {
          assert r[a] == t[a - 1];
        }
      }
    }
  }

  /** Insertion sort of the indices `xs` by SortsBefore. */
  function SortIndices(key: seq<int>, xs: seq<int>): (r: seq<int>)
    requires InBounds(key, xs)
    ensures |r| == |xs| && InBounds(key, r)
    ensures forall y :: y in r <==> y in xs
    ensures Distinct(xs) ==> Distinct(r)
    ensures SortedBy(key, r)
  {
    if xs == [] then [] else Insert(key, xs[0], SortIndices(key, xs[1..]))
  }

  /** `range(n)` */
  function Range(n: nat): (r: seq<int>)
    ensures |r| == n
    ensures forall i :: 0 <= i < n ==> r[i] == i
    ensures forall v :: 0 <= v < n ==> v in r
  {
    var r := seq(n, i requires 0 <= i < n => i);
    assert forall v :: 0 <= v < n ==> v in r by {
      forall v | 0 <= v < n ensures v in r {
        assert r[v] == v;
      }
    }
    r
  }

  /**
   * `sorted(range(len(key)), key=lambda k: key[k])`: for any key at all,
   * a permutation of the key's positions, listed in the order of the
   * values at those positions.
   */
  function ArgSort(key: seq<int>): (inv: seq<int>)
    ensures |inv| == |key|
    ensures IsPermutation(inv)
    ensures InBounds(key, inv) && SortedBy(key, inv)
  {
    SortIndices(key, Range(|key|))
  }

  /** The tail of a sorted repetition-free order is one too, and lacks the head. */
  lemma SortedTail(key: seq<int>, s: seq<int>)
    requires s != [] && InBounds(key, s) && Distinct(s) && SortedBy(key, s)
    ensures InBounds(key, s[1..]) && Distinct(s[1..]) && SortedBy(key, s[1..])
    ensures s[0] !in s[1..]
    ensures forall y :: y in s <==> y == s[0] || y in s[1..]
  {
    var t := s[1..];
    assert s == [s[0]] + t;
    forall i, j | 0 <= i < j < |t| ensures t[i] != t[j] && SortsBefore(key, t[i], t[j]) {
      assert t[i] == s[i + 1] && t[j] == s[j + 1];
    }
  }

  /** The head of a sorted order sorts before every element of it. */
  lemma SortedHeadFirst(key: seq<int>, s: seq<int>, y: int)
    requires InBounds(key, s) && SortedBy(key, s) && y in s
    ensures SortsBefore(key, s[0], y)
  {
    var m := IndexOf(s, y);
    if m > 0 {
      assert SortsBefore(key, s[0], s[m]);
    }
  }

  /**
   * Two repetition-free orderings of the same indices, both sorted by
   * SortsBefore, are the same sequence: the stable order is unique.
   */
  lemma {:induction false} SortedUnique(key: seq<int>, s: seq<int>, t: seq<int>)
    requires InBounds(key, s) && InBounds(key, t) && Distinct(s) && Distinct(t)
    requires forall y :: y in s <==> y in t
    requires SortedBy(key, s) && SortedBy(key, t)
    ensures s == t
    decreases |s|
  {
    assert Elements(s) == Elements(t);
    ElementsCard(s);
    ElementsCard(t);
    if s != [] {
      SortedHeadFirst(key, s, t[0]);
      SortedHeadFirst(key, t, s[0]);
      SortedTail(key, s);
      SortedTail(key, t);
      SortedUnique(key, s[1..], t[1..]);
      assert s == [s[0]] + s[1..] && t == [t[0]] + t[1..];
    }
  }

  /**
   * Python's sort is stable, so whatever algorithm it runs, its result is
   * the one permutation of `0 .. K - 1` sorted by SortsBefore: ArgSort.
   */
  lemma ArgSortIsTheStableOrder(key: seq<int>, order: seq<int>)
    requires |order| == |key| && IsPermutation(order) && SortedBy(key, order)
    ensures order == ArgSort(key)
  {
    var inv := ArgSort(key);
    PermutationIffCovers(order);
    PermutationIffCovers(inv);
    forall y ensures y in order <==> y in inv {
      if y in order {
        assert 0 <= y < |key| by {
          var i := IndexOf(order, y);
        }
      }
      if y in inv {
        assert 0 <= y < |key| by {
          var i := IndexOf(inv, y);
        }
      }
    }
    SortedUnique(key, order, inv);
  }

  /** A strictly increasing sequence of `n` values in `0 .. n - 1` is `0, 1, ..., n - 1`. */
  lemma IncreasingIsIdentity(s: seq<int>)
    requires forall a, b :: 0 <= a < b < |s| ==> s[a] < s[b]
    requires forall j :: 0 <= j < |s| ==> 0 <= s[j] < |s|
    ensures forall j :: 0 <= j < |s| ==> s[j] == j
  {
    forall j | 0 <= j < |s| ensures s[j] == j {
      AtLeastIndex(s, j);
      AtMostIndex(s, j);
    }
  }

  lemma {:induction false} AtLeastIndex(s: seq<int>, j: nat)
    requires forall a, b :: 0 <= a < b < |s| ==> s[a] < s[b]
    requires forall i :: 0 <= i < |s| ==> 0 <= s[i]
    requires j < |s|
    ensures s[j] >= j
  {
    if j > 0 {
      AtLeastIndex(s, j - 1);
    }
  }

  lemma {:induction false} AtMostIndex(s: seq<int>, j: nat)
    requires forall a, b :: 0 <= a < b < |s| ==> s[a] < s[b]
    requires forall i :: 0 <= i < |s| ==> s[i] < |s|
    requires j < |s|
    ensures s[j] <= j
    decreases |s| - j
  {
    if j < |s| - 1 {
      AtMostIndex(s, j + 1);
    }
  }

  /**
   * The argsort of a permutation is its inverse: it sends `key[i]` back
   * to `i`.
   */
  lemma ArgSortInverts(key: seq<int>)
    requires IsPermutation(key)
    ensures forall i :: 0 <= i < |key| ==> ArgSort(key)[key[i]] == i
  {
    var inv := ArgSort(key);
    var k := |key|;
    var s := seq(k, j requires 0 <= j < k => key[inv[j]]);
    forall a, b | 0 <= a < b < k ensures s[a] < s[b] {
      assert SortsBefore(key, inv[a], inv[b]);
      assert inv[a] != inv[b];
      if inv[a] < inv[b] {
        assert key[inv[a]] != key[inv[b]];
      } else {
        assert key[inv[b]] != key[inv[a]];
      }
    }
    IncreasingIsIdentity(s);
    forall i | 0 <= i < k ensures inv[key[i]] == i {
      var j := key[i];
      assert key[inv[j]] == s[j] == j;
    }
  }

  /**
   * So, in `untranspose_columns(..., argsort(key))`, looking up `i` in the
   * argsort finds position `key[i]`.
   */
  lemma IndexOfArgSort(key: seq<int>, i: int)
    requires IsPermutation(key) && 0 <= i < |key|
    ensures i in ArgSort(key) && IndexOf(ArgSort(key), i) == key[i]
  {
    ArgSortInverts(key);
    IndexOfPermutation(ArgSort(key), key[i]);
  }
}
