/**
 * The LINQ operators the repositories are built from, over sequences:
 * `Where`, `Take`, `FirstOrDefault`, `OrderBy`/`OrderByDescending` (a stable
 * insertion sort) and `Sum`, together with the facts the queries need.
 */
module Seqs {
  import opened Wrappers

  /** `Where(p)`: the elements satisfying `p`, in their original order. */
  function Filter<T(!new)>(s: seq<T>, p: T -> bool): (r: seq<T>)
    ensures |r| <= |s|
    ensures |r| == CountWhere(s, p)
    ensures forall x :: x in r <==> x in s && p(x)
  {
    if |s| == 0 then []
    else
      var r := Filter(s[..|s| - 1], p);
      assert s == s[..|s| - 1] + [s[|s| - 1]];
      if p(s[|s| - 1]) then r + [s[|s| - 1]] else r
  }

  /** `Where` keeps each satisfying element as often as it occurs and drops the others. */
  lemma {:induction false} FilterMultiplicity<T(!new)>(s: seq<T>, p: T -> bool)
    ensures forall x :: multiset(Filter(s, p))[x] == if p(x) then multiset(s)[x] else 0
  {
    if |s| > 0 {
      FilterMultiplicity(s[..|s| - 1], p);
      assert s == s[..|s| - 1] + [s[|s| - 1]];
      assert multiset(s) == multiset(s[..|s| - 1]) + multiset{s[|s| - 1]};
    }
  }

  /** A filter that keeps everything returns the sequence itself. */
  lemma {:induction false} FilterAll<T(!new)>(s: seq<T>, p: T -> bool)
    requires forall x | x in s :: p(x)
    ensures Filter(s, p) == s
  {
    if |s| > 0 {
      var init, last := s[..|s| - 1], s[|s| - 1];
      assert s == init + [last];
      FilterAll(init, p);
      assert Filter(s, p) == init + [last];
    }
  }

  /** `Count(p)`: how many elements satisfy `p`. */
  function CountWhere<T(!new)>(s: seq<T>, p: T -> bool): (r: nat)
    ensures r <= |s|
    ensures r > 0 <==> exists x | x in s :: p(x)
    ensures r == |s| <==> forall x | x in s :: p(x)
  {
    if |s| == 0 then 0
    else
      var init := s[..|s| - 1];
      var last := s[|s| - 1];
      assert s == init + [last];
      CountWhere(init, p) + if p(last) then 1 else 0
  }

  /** Counting over a sequence with one more element at the end. */
  lemma CountWhereSnoc<T(!new)>(s: seq<T>, x: T, p: T -> bool)
    ensures CountWhere(s + [x], p) == CountWhere(s, p) + if p(x) then 1 else 0
  {
    assert (s + [x])[..|s|] == s;
  }

  /** The elements satisfying `p` and those satisfying its negation make up the whole sequence. */
  lemma {:induction false} CountComplement<T(!new)>(s: seq<T>, p: T -> bool, q: T -> bool)
    requires forall x | x in s :: q(x) == !p(x)
    ensures CountWhere(s, p) + CountWhere(s, q) == |s|
  {
    if |s| > 0 {
      var init := s[..|s| - 1];
      CountComplement(init, p, q);
      CountWhereSnoc(init, s[|s| - 1], p);
      CountWhereSnoc(init, s[|s| - 1], q);
      assert s == init + [s[|s| - 1]];
    }
  }

  /** Counting `q` after keeping `p` counts `q` over everything, when `q` implies `p`. */
  lemma {:induction false} CountOfFilter<T(!new)>(s: seq<T>, p: T -> bool, q: T -> bool)
    requires forall x | x in s :: q(x) ==> p(x)
    ensures CountWhere(Filter(s, p), q) == CountWhere(s, q)
  {
    if |s| > 0 {
      var init := s[..|s| - 1];
      var last := s[|s| - 1];
      assert s == init + [last];
      CountOfFilter(init, p, q);
      CountWhereSnoc(init, last, q);
      if p(last) {
        CountWhereSnoc(Filter(init, p), last, q);
      }
    }
  }

  /** The predicate "has key `k`". */
  function KeyIs<T, K(==)>(key: T -> K, k: K): T -> bool {
    x => key(x) == k
  }

  /** The predicate "has a key other than `k`". */
  function KeyIsNot<T, K(==)>(key: T -> K, k: K): T -> bool {
    x => key(x) != k
  }

  /**
   * The keys of `GroupBy(key)`: each key present in `s` once, in the order
   * of its first occurrence.
   */
  function GroupKeys<T(!new), K(==,!new)>(s: seq<T>, key: T -> K): (r: seq<K>)
    ensures Distinct(r)
    ensures forall k :: k in r <==> exists x | x in s :: key(x) == k
    decreases |s|
  {
    if |s| == 0 then []
    else
      var k := key(s[0]);
      var rest := Filter(s, KeyIsNot(key, k));
      assert !KeyIsNot(key, k)(s[0]);
      var g := GroupKeys(rest, key);
      GroupKeysCons(s, key, k, rest, g);
      [k] + g
  }

  /** The step of `GroupKeys`: the first key, then the keys of the rows with another key. */
  lemma GroupKeysCons<T, K>(s: seq<T>, key: T -> K, k: K, rest: seq<T>, g: seq<K>)
    requires |s| > 0 && k == key(s[0])
    requires forall x :: x in rest <==> x in s && key(x) != k
    requires Distinct(g)
    requires forall k' :: k' in g <==> exists x | x in rest :: key(x) == k'
    ensures Distinct([k] + g)
    ensures forall k' :: k' in [k] + g <==> exists x | x in s :: key(x) == k'
  {
    var r := [k] + g;
    assert k !in g;
    assert forall j | 1 <= j < |r| :: r[j] == g[j - 1] && r[j] in g;
    forall k' | exists x | x in s :: key(x) == k' ensures k' in r {
      var x :| x in s && key(x) == k';
      if k' != k {
        assert x in rest;
      }
    }
  }

  /** Filters with pointwise-equal predicates agree. */
  lemma {:induction false} FilterExt<T(!new)>(s: seq<T>, p: T -> bool, q: T -> bool)
    requires forall x | x in s :: p(x) == q(x)
    ensures Filter(s, p) == Filter(s, q)
  {
    if |s| > 0 {
      FilterExt(s[..|s| - 1], p, q);
    }
  }

  /** `FirstOrDefault(p)`: the first element satisfying `p`, if any. */
  function FirstWhere<T>(s: seq<T>, p: T -> bool): (r: Option<T>)
    ensures r.Some? ==> r.value in s && p(r.value)
    ensures r.None? <==> forall i | 0 <= i < |s| :: !p(s[i])
  {
    if |s| == 0 then None
    else if p(s[0]) then Some(s[0])
    else
      var r := FirstWhere(s[1..], p);
      assert forall i | 1 <= i < |s| :: s[i] == s[1..][i - 1];
      r
  }

  /** `Take(n)`. */
  function Take<T>(s: seq<T>, n: nat): (r: seq<T>)
    ensures |r| == if |s| < n then |s| else n
    ensures r == s[..|r|]
    ensures forall x :: x in r ==> x in s
    ensures |s| <= n ==> r == s
  {
    if |s| <= n then s else s[..n]
  }

  /** `Take(n)` keeps no element more often than the sequence holds it. */
  lemma TakeSubMultiset<T>(s: seq<T>, n: nat)
    ensures multiset(Take(s, n)) <= multiset(s)
  {
    var r := Take(s, n);
    assert s == r + s[|r|..];
    assert multiset(s) == multiset(r) + multiset(s[|r|..]);
  }

  /** `Max()` of a non-empty sequence of integers. */
  function MaxOf(xs: seq<int>): (r: int)
    requires |xs| > 0
    ensures forall i | 0 <= i < |xs| :: xs[i] <= r
    ensures exists i | 0 <= i < |xs| :: xs[i] == r
  {
    var last := xs[|xs| - 1];
    if |xs| == 1 then last
    else
      var m := MaxOf(xs[..|xs| - 1]);
      if m >= last then m else last
  }

  /** No element occurs twice. */
  predicate Distinct<T(==)>(s: seq<T>) {
    forall i, j | 0 <= i < j < |s| :: s[i] != s[j]
  }

  /** The elements of a sequence, as a set. */
  function Elements<T(!new)>(s: seq<T>): (r: set<T>)
    ensures forall x :: x in r <==> x in s
  {
    set x | x in s
  }

  /** A sequence without repetitions has as many distinct elements as positions. */
  lemma {:induction false} DistinctCard<T(!new)>(s: seq<T>)
    requires Distinct(s)
    ensures |Elements(s)| == |s|
  {
    if |s| > 0 {
      var t := s[..|s| - 1];
      var x := s[|s| - 1];
      assert Distinct(t);
      DistinctCard(t);
      assert s == t + [x];
      assert x !in Elements(t) by {
        forall i | 0 <= i < |t| ensures t[i] != x {
          assert s[i] == t[i];
        }
      }
      assert Elements(s) == Elements(t) + {x};
    }
  }

  // ---------------------------------------------------------------------------
  // Tables: sequences of rows with a key

  /** No two rows share a key (a primary key constraint). */
  predicate UniqueBy<T, K(==)>(s: seq<T>, key: T -> K) {
    forall i, j | 0 <= i < j < |s| :: key(s[i]) != key(s[j])
  }

  /** The keys present in a table. */
  function KeySet<T, K>(s: seq<T>, key: T -> K): set<K> {
    set i | 0 <= i < |s| :: key(s[i])
  }

  /** `FirstOrDefault(row => key(row) == k)`: the index of the first row with key `k`. */
  function IndexOf<T, K(==)>(s: seq<T>, key: T -> K, k: K): (r: Option<nat>)
    ensures r.Some? ==> r.value < |s| && key(s[r.value]) == k
    ensures r.Some? ==> forall j | 0 <= j < r.value :: key(s[j]) != k
    ensures r.None? <==> k !in KeySet(s, key)
  {
    if |s| == 0 then None
    else if key(s[0]) == k then Some(0)
    else
      var r := IndexOf(s[1..], key, k);
      assert KeySet(s, key) == {key(s[0])} + KeySet(s[1..], key) by {
        forall x | x in KeySet(s, key) ensures x in {key(s[0])} + KeySet(s[1..], key) {
          var i :| 0 <= i < |s| && key(s[i]) == x;
          if i > 0 { assert key(s[1..][i - 1]) == x; }
        }
      }
      if r.None? then None else Some(r.value + 1)
  }

  /** The row with key `k`, or null when there is none. */
  function Find<T, K(==)>(s: seq<T>, key: T -> K, k: K): (r: Option<T>)
    ensures r.Some? ==> r.value in s && key(r.value) == k
    ensures r.None? <==> k !in KeySet(s, key)
  {
    match IndexOf(s, key, k)
    case Some(i) => Some(s[i])
    case None => None
  }

  /** In a table with unique keys, the row found for a key is the only row with it. */
  lemma FindUnique<T, K>(s: seq<T>, key: T -> K, i: nat)
    requires UniqueBy(s, key) && i < |s|
    ensures IndexOf(s, key, key(s[i])) == Some(i)
    ensures Find(s, key, key(s[i])) == Some(s[i])
  {
    var r := IndexOf(s, key, key(s[i]));
    assert key(s[i]) in KeySet(s, key);
  }

  /** On a table with unique keys, looking up a row's own key finds that row. */
  lemma FindMember<T, K>(s: seq<T>, key: T -> K, x: T)
    requires UniqueBy(s, key) && x in s
    ensures Find(s, key, key(x)) == Some(x)
  {
    var i :| 0 <= i < |s| && s[i] == x;
    FindUnique(s, key, i);
  }

  lemma KeySetAppend<T, K>(s: seq<T>, key: T -> K, x: T)
    ensures KeySet(s + [x], key) == KeySet(s, key) + {key(x)}
  {
    var t := s + [x];
    forall k | k in KeySet(t, key) ensures k in KeySet(s, key) + {key(x)} {
      var i :| 0 <= i < |t| && key(t[i]) == k;
      if i < |s| { assert key(s[i]) == k; }
    }
    forall k | k in KeySet(s, key) + {key(x)} ensures k in KeySet(t, key) {
      if k == key(x) {
        assert key(t[|s|]) == k;
      } else {
        var i :| 0 <= i < |s| && key(s[i]) == k;
        assert key(t[i]) == k;
      }
    }
  }

  lemma UniqueAppend<T, K>(s: seq<T>, key: T -> K, x: T)
    ensures UniqueBy(s + [x], key) <==> UniqueBy(s, key) && key(x) !in KeySet(s, key)
  {
    var t := s + [x];
    if UniqueBy(t, key) {
      assert forall i, j | 0 <= i < j < |s| :: s[i] == t[i] && s[j] == t[j];
      forall i | 0 <= i < |s| ensures key(s[i]) != key(x) {
        assert t[i] == s[i] && t[|s|] == x;
      }
    }
    if UniqueBy(s, key) && key(x) !in KeySet(s, key) {
      forall i, j | 0 <= i < j < |t| ensures key(t[i]) != key(t[j]) {
        if j < |s| {
          assert t[i] == s[i] && t[j] == s[j];
        } else {
          assert t[i] == s[i] && key(s[i]) in KeySet(s, key);
        }
      }
    }
  }

  lemma KeySetReplace<T, K>(s: seq<T>, key: T -> K, i: nat, x: T)
    requires i < |s| && key(x) == key(s[i])
    ensures KeySet(s[i := x], key) == KeySet(s, key)
    ensures UniqueBy(s, key) ==> UniqueBy(s[i := x], key)
  {
    var t := s[i := x];
    assert forall j | 0 <= j < |s| :: key(t[j]) == key(s[j]);
    forall k | k in KeySet(t, key) ensures k in KeySet(s, key) {
      var j :| 0 <= j < |t| && key(t[j]) == k;
      assert key(s[j]) == k;
    }
    forall k | k in KeySet(s, key) ensures k in KeySet(t, key) {
      var j :| 0 <= j < |s| && key(s[j]) == k;
      assert key(t[j]) == k;
    }
  }

  lemma KeySetRemove<T, K>(s: seq<T>, key: T -> K, i: nat)
    requires UniqueBy(s, key) && i < |s|
    ensures KeySet(RemoveAt(s, i), key) == KeySet(s, key) - {key(s[i])}
    ensures UniqueBy(RemoveAt(s, i), key)
  {
    var t := RemoveAt(s, i);
    forall k | k in KeySet(t, key) ensures k in KeySet(s, key) - {key(s[i])} {
      var j :| 0 <= j < |t| && key(t[j]) == k;
      if j < i { assert key(s[j]) == k; } else { assert key(s[j + 1]) == k; }
    }
    forall k | k in KeySet(s, key) - {key(s[i])} ensures k in KeySet(t, key) {
      var j :| 0 <= j < |s| && key(s[j]) == k;
      if j < i { assert key(t[j]) == k; } else { assert j != i; assert key(t[j - 1]) == k; }
    }
    forall a, b | 0 <= a < b < |t| ensures key(t[a]) != key(t[b]) {
      var a' := if a < i then a else a + 1;
      var b' := if b < i then b else b + 1;
      assert t[a] == s[a'] && t[b] == s[b'];
    }
  }

  /** `Select(key)`: the key of every row, in row order. */
  function Keys<T, K(!new)>(s: seq<T>, key: T -> K): (r: seq<K>)
    ensures |r| == |s| && forall i | 0 <= i < |s| :: r[i] == key(s[i])
    ensures UniqueBy(s, key) ==> Distinct(r)
    ensures forall k :: k in r <==> k in KeySet(s, key)
  {
    var r := seq(|s|, i requires 0 <= i < |s| => key(s[i]));
    assert forall k | k in KeySet(s, key) :: k in r by {
      forall k | k in KeySet(s, key) ensures k in r {
        var i :| 0 <= i < |s| && key(s[i]) == k;
        assert r[i] == k;
      }
    }
    r
  }

  /** In a table with unique keys no row occurs twice. */
  lemma {:induction false} UniqueCount<T, K>(s: seq<T>, key: T -> K, x: T)
    requires UniqueBy(s, key)
    ensures multiset(s)[x] <= 1
  {
    if |s| > 0 {
      var init := s[..|s| - 1];
      var last := s[|s| - 1];
      assert s == init + [last];
      assert UniqueBy(init, key);
      UniqueCount(init, key, x);
      assert last == x ==> x !in init by {
        forall k | 0 <= k < |init| ensures key(init[k]) != key(last) {
          assert s[k] == init[k];
        }
      }
    }
  }

  /** Reordering a table with unique keys keeps its keys unique. */
  lemma PermutationKeepsUnique<T, K>(s: seq<T>, r: seq<T>, key: T -> K)
    requires UniqueBy(s, key) && multiset(r) == multiset(s)
    ensures UniqueBy(r, key)
  {
    forall i, j | 0 <= i < j < |r| ensures key(r[i]) != key(r[j]) {
      UniqueCount(s, key, r[i]);
      assert r == r[..j] + r[j..];
      assert r[i] in r[..j] && r[j] in r[j..];
      assert multiset(r[..j])[r[i]] >= 1;
      assert r[i] != r[j];
      assert r[i] in multiset(s) && r[j] in multiset(s);
      var p :| 0 <= p < |s| && s[p] == r[i];
      var q :| 0 <= q < |s| && s[q] == r[j];
      assert p != q;
    }
  }

  /** Filtering a table keeps its keys unique. */
  lemma {:induction false} FilterUnique<T(!new), K>(s: seq<T>, key: T -> K, p: T -> bool)
    requires UniqueBy(s, key)
    ensures UniqueBy(Filter(s, p), key)
  {
    if |s| > 0 {
      var t := s[..|s| - 1];
      var x := s[|s| - 1];
      assert s == t + [x];
      UniqueAppend(t, key, x);
      FilterUnique(t, key, p);
      var f := Filter(t, p);
      if p(x) {
        assert key(x) !in KeySet(f, key) by {
          forall i | 0 <= i < |f| ensures key(f[i]) != key(x) {
            assert f[i] in t;
            var j :| 0 <= j < |t| && t[j] == f[i];
          }
        }
        UniqueAppend(f, key, x);
      }
    }
  }

  /** Replacing one row keeps the order and the other rows. */
  function ReplaceAt<T>(s: seq<T>, i: nat, x: T): (r: seq<T>)
    requires i < |s|
    ensures |r| == |s| && r[i] == x
    ensures forall j | 0 <= j < |s| && j != i :: r[j] == s[j]
    ensures forall y | y in r :: y == x || y in s
  {
    s[i := x]
  }

  /** Removing one row keeps the order of the others. */
  function RemoveAt<T>(s: seq<T>, i: nat): (r: seq<T>)
    requires i < |s|
    ensures |r| == |s| - 1
    ensures forall j | 0 <= j < i :: r[j] == s[j]
    ensures forall j | i <= j < |r| :: r[j] == s[j + 1]
    ensures forall y | y in r :: y in s
  {
    s[..i] + s[i + 1..]
  }

  // ---------------------------------------------------------------------------
  // Ordering

  /** `le` orders keys totally (ties allowed). */
  ghost predicate TotalPreorder<K(!new)>(le: (K, K) -> bool) {
    && (forall a, b :: le(a, b) || le(b, a))
    && (forall a, b, c :: le(a, b) && le(b, c) ==> le(a, c))
  }

  predicate SortedBy<T, K>(s: seq<T>, key: T -> K, le: (K, K) -> bool) {
    forall i, j | 0 <= i < j < |s| :: le(key(s[i]), key(s[j]))
  }

  /** Inserts `x` before the first element whose key it does not follow. */
  function Insert<T, K(!new)>(x: T, s: seq<T>, key: T -> K, le: (K, K) -> bool): (r: seq<T>)
    requires TotalPreorder(le) && SortedBy(s, key, le)
    ensures SortedBy(r, key, le)
    ensures multiset(r) == multiset(s) + multiset{x}
  {
    if |s| == 0 then [x]
    else if le(key(x), key(s[0])) then [x] + s
    else
      var r' := Insert(x, s[1..], key, le);
      assert s == [s[0]] + s[1..];
      InsertAfterHead(x, s, r', key, le);
      [s[0]] + r'
  }

  /** When `x` goes after the head of `s`, the head's key precedes every key of the rest with `x` added. */
  lemma InsertAfterHead<T, K(!new)>(x: T, s: seq<T>, r': seq<T>, key: T -> K, le: (K, K) -> bool)
    requires TotalPreorder(le) && SortedBy(s, key, le)
    requires |s| > 0 && !le(key(x), key(s[0]))
    requires multiset(r') == multiset(s[1..]) + multiset{x}
    ensures forall j | 0 <= j < |r'| :: le(key(s[0]), key(r'[j]))
  {
    forall j | 0 <= j < |r'| ensures le(key(s[0]), key(r'[j])) {
      var y := r'[j];
      assert y in multiset(r');
      if y != x {
        assert y in multiset(s[1..]);
        var i :| 0 <= i < |s[1..]| && s[1..][i] == y;
        assert s[i + 1] == y;
      }
    }
  }

  /**
   * `OrderBy(key)` under the order `le` (pass a reversed order for
   * `OrderByDescending`). Stable: rows with equal keys keep their order.
   */
  function Sort<T(!new), K(!new)>(s: seq<T>, key: T -> K, le: (K, K) -> bool): (r: seq<T>)
    requires TotalPreorder(le)
    ensures SortedBy(r, key, le)
    ensures multiset(r) == multiset(s)
    ensures |r| == |s|
    ensures forall x :: x in r <==> x in s
  {
    if |s| == 0 then []
    else
      var r := Insert(s[0], Sort(s[1..], key, le), key, le);
      assert s == [s[0]] + s[1..];
      forall x ensures x in r <==> x in s {
        assert x in r <==> x in multiset(r);
        assert x in s <==> x in multiset(s);
      }
      r
  }

  // ---------------------------------------------------------------------------
  // Sums

  /** `Sum(m)`. */
  function SumBy<T>(s: seq<T>, m: T -> int): int {
    if |s| == 0 then 0 else m(s[0]) + SumBy(s[1..], m)
  }

  lemma {:induction false} SumInsert<T, K(!new)>(x: T, s: seq<T>, key: T -> K, le: (K, K) -> bool, m: T -> int)
    requires TotalPreorder(le) && SortedBy(s, key, le)
    ensures SumBy(Insert(x, s, key, le), m) == m(x) + SumBy(s, m)
  {
    if |s| > 0 && !le(key(x), key(s[0])) {
      SumInsert(x, s[1..], key, le, m);
      var r := Insert(x, s, key, le);
      assert r[1..] == Insert(x, s[1..], key, le);
    } else if |s| > 0 {
      assert ([x] + s)[1..] == s;
    }
  }

  /** Reordering does not change a sum. */
  lemma {:induction false} SumSort<T(!new), K(!new)>(s: seq<T>, key: T -> K, le: (K, K) -> bool, m: T -> int)
    requires TotalPreorder(le)
    ensures SumBy(Sort(s, key, le), m) == SumBy(s, m)
  {
    if |s| > 0 {
      SumSort(s[1..], key, le, m);
      SumInsert(s[0], Sort(s[1..], key, le), key, le, m);
    }
  }

  // ---------------------------------------------------------------------------
  // Orders used by the queries

  /** `OrderByDescending` on an `int` column. */
  predicate AtLeast(a: int, b: int) {
    a >= b
  }

  /** `OrderByDescending` on a nullable timestamp: NULL sorts last. */
  predicate LaterOrSame(a: Option<int>, b: Option<int>) {
    b.None? || (a.Some? && a.value >= b.value)
  }

  lemma AtLeastIsTotalPreorder()
    ensures TotalPreorder(AtLeast)
  {
  }

  lemma LaterOrSameIsTotalPreorder()
    ensures TotalPreorder(LaterOrSame)
  {
  }
}
