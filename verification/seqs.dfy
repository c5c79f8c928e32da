/** Sequence operations the source takes from Ruby's Array and Enumerable: `uniq`
    (first occurrence kept), `select`/`reject`, `flatten` and `sort`. */
module Seqs {

  predicate NoDup<T(==)>(s: seq<T>) {
    forall i, j | 0 <= i < j < |s| :: s[i] != s[j]
  }

  /** The position of the first occurrence of `x` in `s`. */
  function FirstIndex<T(==)>(s: seq<T>, x: T): (k: nat)
    requires x in s
    ensures k < |s| && s[k] == x && x !in s[..k]
  {
    var n := |s| - 1;
    if x in s[..n] then
      var k := FirstIndex(s[..n], x);
      assert s[..n][..k] == s[..k];
      k
    else
      assert s == s[..n] + [s[n]];
      n
  }

  /** Ruby's `Array#uniq`: every element once, at the place of its first occurrence. */
  function Dedup<T(==,!new)>(s: seq<T>): (r: seq<T>)
    ensures NoDup(r)
    ensures forall x :: x in r <==> x in s
    ensures |r| <= |s|
  {
    if |s| == 0 then []
    else
      var d := Dedup(s[..|s| - 1]);
      assert forall x :: x in s <==> x in s[..|s| - 1] || x == s[|s| - 1] by {
        assert s == s[..|s| - 1] + [s[|s| - 1]];
      }
      if s[|s| - 1] in d then d else d + [s[|s| - 1]]
  }

  /** `uniq` keeps first occurrences in the order they occur in the input. */
  lemma {:induction false} DedupOrder<T(!new)>(s: seq<T>)
    ensures forall i, j | 0 <= i < j < |Dedup(s)| :: FirstIndex(s, Dedup(s)[i]) < FirstIndex(s, Dedup(s)[j])
  {
    if |s| > 0 {
      var p := s[..|s| - 1];
      DedupOrder(p);
      var d := Dedup(s);
      forall i, j | 0 <= i < j < |d| ensures FirstIndex(s, d[i]) < FirstIndex(s, d[j]) {
        assert d[i] in p by { assert d[i] in Dedup(p); }
        assert FirstIndex(s, d[i]) == FirstIndex(p, d[i]);
        if d[j] in p {
          assert FirstIndex(s, d[j]) == FirstIndex(p, d[j]);
        } else {
          assert FirstIndex(s, d[j]) == |s| - 1;
        }
      }
    }
  }

  /** A sequence without duplicates is its own `uniq`. */
  lemma {:induction false} DedupNoDup<T(!new)>(s: seq<T>)
    requires NoDup(s)
    ensures Dedup(s) == s
  {
    if |s| > 0 {
      var p := s[..|s| - 1];
      DedupNoDup(p);
      assert s[|s| - 1] !in p;
      assert s == p + [s[|s| - 1]];
    }
  }

  /** Ruby's `select`: the elements satisfying `p`, in order. */
  function Filter<T(!new)>(s: seq<T>, p: T -> bool): (r: seq<T>)
    ensures |r| <= |s|
    ensures forall x :: x in r <==> x in s && p(x)
    ensures forall i | 0 <= i < |r| :: p(r[i])
  {
    if |s| == 0 then []
    else
      var rest := Filter(s[1..], p);
      assert forall x :: x in s <==> x == s[0] || x in s[1..] by {
        assert s == [s[0]] + s[1..];
      }
      if p(s[0]) then [s[0]] + rest else rest
  }

  lemma {:induction false} FilterConcat<T(!new)>(a: seq<T>, b: seq<T>, p: T -> bool)
    ensures Filter(a + b, p) == Filter(a, p) + Filter(b, p)
  {
    if |a| > 0 {
      assert (a + b)[1..] == a[1..] + b;
      FilterConcat(a[1..], b, p);
    } else {
      assert a + b == b;
    }
  }

  /** `select` then `reject` is one `select` by both tests. */
  lemma {:induction false} FilterFilter<T(!new)>(s: seq<T>, p: T -> bool, q: T -> bool, both: T -> bool)
    requires forall x :: both(x) == (p(x) && q(x))
    ensures Filter(Filter(s, p), q) == Filter(s, both)
  {
    if |s| > 0 {
      FilterFilter(s[1..], p, q, both);
    }
  }

  lemma {:induction false} FilterAll<T(!new)>(s: seq<T>, p: T -> bool)
    requires forall i | 0 <= i < |s| :: p(s[i])
    ensures Filter(s, p) == s
  {
    if |s| > 0 {
      FilterAll(s[1..], p);
    }
  }

  /** The positions of `s` whose elements satisfy `p`, in increasing order. */
  function Positions<T>(s: seq<T>, p: T -> bool): (ks: seq<nat>)
    ensures PositionsOf(ks, s, p, |s|)
  {
    PositionsBelow(s, p, |s|)
  }

  /** `ks` lists, in increasing order, exactly the positions below `n` whose elements of
      `s` satisfy `p`. */
  ghost predicate PositionsOf<T>(ks: seq<nat>, s: seq<T>, p: T -> bool, n: nat) {
    && n <= |s|
    && (forall a | 0 <= a < |ks| :: ks[a] < n && p(s[ks[a]]))
    && (forall a, b | 0 <= a < b < |ks| :: ks[a] < ks[b])
    && (forall i {:trigger i in ks} | 0 <= i < n && p(s[i]) :: i in ks)
  }

  function PositionsBelow<T>(s: seq<T>, p: T -> bool, n: nat): (ks: seq<nat>)
    requires n <= |s|
    ensures PositionsOf(ks, s, p, n)
  {
    if n == 0 then []
    else
      var front := PositionsBelow(s, p, n - 1);
      if p(s[n - 1]) then
        assert forall a | 0 <= a < |front| :: (front + [n - 1])[a] == front[a];
        front + [n - 1]
      else front
  }

  /** `r` is `s` read at the positions `ks`, one element per position. */
  ghost predicate Picks<T>(r: seq<T>, s: seq<T>, ks: seq<nat>) {
    |r| == |ks| && forall a | 0 <= a < |ks| :: ks[a] < |s| && r[a] == s[ks[a]]
  }

  /** `select` keeps exactly the elements satisfying `p`, in the order of `s`. */
  lemma FilterPicks<T(!new)>(s: seq<T>, p: T -> bool)
    ensures Picks(Filter(s, p), s, Positions(s, p))
  {
    FilterPicksBelow(s, p, |s|);
    assert s[..|s|] == s;
  }

  lemma {:induction false} FilterPicksBelow<T(!new)>(s: seq<T>, p: T -> bool, n: nat)
    requires n <= |s|
    ensures Picks(Filter(s[..n], p), s, PositionsBelow(s, p, n))
  {
    if n > 0 {
      var r := Filter(s[..n - 1], p);
      var ks := PositionsBelow(s, p, n - 1);
      FilterPicksBelow(s, p, n - 1);
      FilterPrefixSnoc(s, p, n);
      PicksSnoc(s, r, ks, n - 1, p(s[n - 1]));
    }
  }

  lemma FilterPrefixSnoc<T(!new)>(s: seq<T>, p: T -> bool, n: nat)
    requires 0 < n <= |s|
    ensures Filter(s[..n], p) == Filter(s[..n - 1], p) + if p(s[n - 1]) then [s[n - 1]] else []
  {
    FilterSnoc(s[..n], p);
    assert s[..n][..n - 1] == s[..n - 1];
  }

  lemma FilterSnoc<T(!new)>(s: seq<T>, p: T -> bool)
    requires |s| > 0
    ensures Filter(s, p) == Filter(s[..|s| - 1], p) + if p(s[|s| - 1]) then [s[|s| - 1]] else []
  {
    var n := |s| - 1;
    assert s == s[..n] + [s[n]];
    FilterConcat(s[..n], [s[n]], p);
    FilterSingle(s[n], p);
  }

  lemma FilterSingle<T(!new)>(x: T, p: T -> bool)
    ensures Filter([x], p) == if p(x) then [x] else []
  {
    assert [x][1..] == [];
  }

  lemma PicksSnoc<T>(s: seq<T>, r: seq<T>, ks: seq<nat>, k: nat, keep: bool)
    requires k < |s| && Picks(r, s, ks)
    ensures Picks(r + if keep then [s[k]] else [], s, ks + if keep then [k] else [])
  {
  }

  /** Two kept elements appear in `select`'s result in the order they have in `s`. */
  lemma FilterOrder<T(!new)>(s: seq<T>, p: T -> bool, i: nat, j: nat)
    requires i < j < |s| && p(s[i]) && p(s[j])
    ensures exists a, b | 0 <= a < b < |Filter(s, p)| :: Filter(s, p)[a] == s[i] && Filter(s, p)[b] == s[j]
  {
    FilterPicks(s, p);
    var ks := Positions(s, p);
    assert i in ks && j in ks;
    var a :| 0 <= a < |ks| && ks[a] == i;
    var b :| 0 <= b < |ks| && ks[b] == j;
    assert a < b;
  }

  /** `select` on a sorted sequence gives a sorted sequence. */
  lemma FilterSortedBy<T(!new)>(le: (T, T) -> bool, s: seq<T>, p: T -> bool)
    requires SortedBy(le, s)
    ensures SortedBy(le, Filter(s, p))
  {
    FilterPicks(s, p);
  }

  /** Concatenation of a sequence of sequences. */
  function Flatten<T(!new)>(ss: seq<seq<T>>): (r: seq<T>)
    ensures forall x :: x in r <==> exists i | 0 <= i < |ss| :: x in ss[i]
  {
    if |ss| == 0 then []
    else
      var rest := Flatten(ss[1..]);
      assert forall x :: (exists i | 0 <= i < |ss| :: x in ss[i]) <==> x in ss[0] || exists i | 0 <= i < |ss[1..]| :: x in ss[1..][i] by {
        forall x | exists i | 0 <= i < |ss| :: x in ss[i]
          ensures x in ss[0] || exists i | 0 <= i < |ss[1..]| :: x in ss[1..][i]
        {
          var i :| 0 <= i < |ss| && x in ss[i];
          if i > 0 {
            assert x in ss[1..][i - 1];
          }
        }
      }
      ss[0] + rest
  }

  function Map<T, U>(s: seq<T>, f: T -> U): (r: seq<U>)
    ensures |r| == |s|
    ensures forall i | 0 <= i < |s| :: r[i] == f(s[i])
  {
    if |s| == 0 then [] else [f(s[0])] + Map(s[1..], f)
  }

  lemma MapCons<T, U>(x: T, s: seq<T>, f: T -> U)
    ensures Map([x] + s, f) == [f(x)] + Map(s, f)
  {
    assert ([x] + s)[1..] == s;
  }

  // ---------------------------------------------------------------------------
  // Sorting

  ghost predicate TotalPreorder<T(!new)>(le: (T, T) -> bool) {
    && (forall a, b :: le(a, b) || le(b, a))
    && (forall a, b, c :: le(a, b) && le(b, c) ==> le(a, c))
  }

  predicate SortedBy<T>(le: (T, T) -> bool, s: seq<T>) {
    forall i, j | 0 <= i < j < |s| :: le(s[i], s[j])
  }

  /** Inserts `x` before the first element it does not come after. */
  function Insert<T(!new)>(x: T, s: seq<T>, le: (T, T) -> bool): (r: seq<T>)
    ensures multiset(r) == multiset(s) + multiset{x}
    ensures TotalPreorder(le) && SortedBy(le, s) ==> SortedBy(le, r)
  {
    if |s| == 0 then [x]
    else if le(x, s[0]) then
      assert TotalPreorder(le) && SortedBy(le, s) ==> SortedBy(le, [x] + s) by {
        if TotalPreorder(le) && SortedBy(le, s) {
          forall y | y in s ensures le(x, y) {
            var k :| 0 <= k < |s| && s[k] == y;
            assert le(s[0], y);
          }
          ConsSorted(x, s, le);
        }
      }
      [x] + s
    else
      var rest := Insert(x, s[1..], le);
      HeadSplit(s);
      assert TotalPreorder(le) && SortedBy(le, s) ==> SortedBy(le, [s[0]] + rest) by {
        if TotalPreorder(le) && SortedBy(le, s) {
          forall y | y in rest ensures le(s[0], y) {
            assert y in multiset(rest);
            if y != x {
              assert y in multiset(s[1..]);
              var k :| 0 <= k < |s[1..]| && s[1..][k] == y;
              assert s[k + 1] == y;
            }
          }
          ConsSorted(s[0], rest, le);
        }
      }
      [s[0]] + rest
  }

  /** A sorted sequence stays sorted behind an element that comes before all of it. */
  lemma ConsSorted<T>(h: T, s: seq<T>, le: (T, T) -> bool)
    requires SortedBy(le, s)
    requires forall y | y in s :: le(h, y)
    ensures SortedBy(le, [h] + s)
  {
    forall i, j | 0 <= i < j < |[h] + s| ensures le(([h] + s)[i], ([h] + s)[j]) {
      if i == 0 {
        assert s[j - 1] in s;
      }
    }
  }

  /** Insertion sort under a total preorder (stable: equal elements keep their order). */
  function Sort<T(!new)>(s: seq<T>, le: (T, T) -> bool): (r: seq<T>)
    ensures multiset(r) == multiset(s)
    ensures |r| == |s|
    ensures TotalPreorder(le) ==> SortedBy(le, r)
  {
    if |s| == 0 then []
    else
      assert s == [s[0]] + s[1..];
      var r := Insert(s[0], Sort(s[1..], le), le);
      assert |r| == |multiset(r)|;
      r
  }

  // Small facts about sequence shapes and multisets, kept apart from any model context.

  /** An element of a duplicate-free sequence occurs in it exactly once. */
  lemma {:induction false} NoDupOnce<T>(s: seq<T>, x: T)
    requires NoDup(s) && x in s
    ensures multiset(s)[x] == 1
  {
    var p := s[..|s| - 1];
    assert s == p + [s[|s| - 1]];
    assert NoDup(p);
    if x == s[|s| - 1] {
      assert x !in p;
    } else {
      NoDupOnce(p, x);
    }
  }

  lemma LastSplit<T>(xs: seq<T>)
    requires |xs| > 0
    ensures xs == xs[..|xs| - 1] + [xs[|xs| - 1]]
  {
  }

  lemma MultisetSnoc<T>(p: seq<T>, y: T, x: T)
    ensures multiset(p + [y])[x] == multiset(p)[x] + multiset([y])[x]
  {
  }

  lemma HeadSplit<T>(s: seq<T>)
    requires |s| > 0
    ensures [s[0]] + s[1..] == s
  {
  }

  lemma SwapShape<T>(s: seq<T>, k: nat)
    requires 0 < k < |s|
    ensures s == [s[0]] + s[1..k] + [s[k]] + s[k + 1..]
    ensures s[0 := s[k]][k := s[0]] == [s[k]] + s[1..k] + [s[0]] + s[k + 1..]
  {
  }

  /** Where the parts of a three-part concatenation sit. */
  lemma Concat3At<T>(a: seq<T>, b: seq<T>, c: seq<T>)
    ensures forall j | |a| <= j < |a| + |b| :: (a + b + c)[j] == b[j - |a|]
    ensures forall j | |a| + |b| <= j < |a| + |b| + |c| :: (a + b + c)[j] == c[j - |a| - |b|]
  {
  }

  lemma AppendFour<T>(h: seq<T>, a: seq<T>, b: seq<T>, c: seq<T>, d: seq<T>)
    ensures h + (a + b + c + d) == h + a + b + c + d
  {
  }

  lemma Bracketed<T>(a: seq<T>, b: seq<T>, c: seq<T>, d: seq<T>, e: seq<T>)
    requires |a| == 1 && |e| == 1
    ensures var s := a + b + c + d + e;
            |s| >= 2 && s[0] == a[0] && s[|s| - 1] == e[0] && s[1..|s| - 1] == b + c + d
  {
    var s := a + b + c + d + e;
    assert s == a + (b + c + d) + e;
  }

  lemma MultisetOfFour<T>(w: seq<T>, x: seq<T>, y: seq<T>, z: seq<T>)
    ensures multiset(w + x + y + z) == multiset(w) + multiset(x) + multiset(y) + multiset(z)
  {
  }
}
