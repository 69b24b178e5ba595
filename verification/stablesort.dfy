/**
 * Filtering and stable sorting of sequences by an integer rank, the two list
 * operations the store applies to its collections (`Array.prototype.filter`
 * and the stable `Array.prototype.sort`).
 */
module StableSort {

  /** The elements of `s` that satisfy `keep`, in their order in `s`. */
  function Select<T(!new)>(s: seq<T>, keep: T -> bool): (r: seq<T>)
  {
    if |s| == 0 then []
    else (if keep(s[0]) then [s[0]] else []) + Select(s[1..], keep)
  }

  /** Filtering keeps every occurrence of a kept value and drops every other value. */
  lemma {:induction false} SelectCount<T(!new)>(s: seq<T>, keep: T -> bool, x: T)
    ensures multiset(Select(s, keep))[x] == if keep(x) then multiset(s)[x] else 0
    ensures x in Select(s, keep) <==> x in s && keep(x)
  {
    if |s| > 0 {
      assert s == [s[0]] + s[1..];
      SelectCount(s[1..], keep, x);
    }
  }

  /** Filtering distributes over concatenation. */
  lemma {:induction false} SelectConcat<T(!new)>(a: seq<T>, b: seq<T>, keep: T -> bool)
    ensures Select(a + b, keep) == Select(a, keep) + Select(b, keep)
  {
    if |a| == 0 {
      assert a + b == b;
    } else {
      assert (a + b)[0] == a[0] && (a + b)[1..] == a[1..] + b;
      SelectConcat(a[1..], b, keep);
    }
  }

  /** `s` is ordered by non-decreasing rank. */
  predicate Ascending<T(!new)>(s: seq<T>, rank: T -> int) {
    forall i, j :: 0 <= i < j < |s| ==> rank(s[i]) <= rank(s[j])
  }

  /** The elements of `s` whose rank is `k` (one class of ties), in their order in `s`. */
  function WithRank<T(!new)>(s: seq<T>, rank: T -> int, k: int): seq<T> {
    Select(s, (x: T) => rank(x) == k)
  }

  /** `r` keeps every class of ties of `s`, in the order `s` has them. */
  ghost predicate SameTies<T(!new)>(r: seq<T>, s: seq<T>, rank: T -> int) {
    forall k :: WithRank(r, rank, k) == WithRank(s, rank, k)
  }

  /** `x` placed before the first element of `s` whose rank is not below its own. */
  function Insert<T(!new)>(x: T, s: seq<T>, rank: T -> int): (r: seq<T>)
    ensures multiset(r) == multiset(s) + multiset{x}
  {
    if |s| == 0 || rank(x) <= rank(s[0]) then [x] + s
    else
      assert s == [s[0]] + s[1..];
      [s[0]] + Insert(x, s[1..], rank)
  }

  /** A lower bound on the ranks of `x` and of `s` bounds the ranks after the insertion. */
  lemma {:induction false} InsertBound<T(!new)>(x: T, s: seq<T>, rank: T -> int, b: int)
    requires b <= rank(x) && forall i :: 0 <= i < |s| ==> b <= rank(s[i])
    ensures forall i :: 0 <= i < |Insert(x, s, rank)| ==> b <= rank(Insert(x, s, rank)[i])
  {
    if |s| > 0 && rank(x) > rank(s[0]) {
      var r' := Insert(x, s[1..], rank);
      InsertBound(x, s[1..], rank, b);
      assert forall i :: 1 <= i < |r'| + 1 ==> ([s[0]] + r')[i] == r'[i - 1];
    }
  }

  /** An element ranked no higher than anything in an ascending `s` can go in front of it. */
  lemma AscendingCons<T(!new)>(y: T, s: seq<T>, rank: T -> int)
    requires Ascending(s, rank) && forall i :: 0 <= i < |s| ==> rank(y) <= rank(s[i])
    ensures Ascending([y] + s, rank)
  {
    var r := [y] + s;
    forall i, j | 0 <= i < j < |r| ensures rank(r[i]) <= rank(r[j]) {
      assert r[j] == s[j - 1];
      if i > 0 {
        assert r[i] == s[i - 1];
      }
    }
  }

  /** Inserting into an ascending sequence keeps it ascending. */
  lemma {:induction false} InsertAscending<T(!new)>(x: T, s: seq<T>, rank: T -> int)
    requires Ascending(s, rank)
    ensures Ascending(Insert(x, s, rank), rank)
  {
    if |s| == 0 || rank(x) <= rank(s[0]) {
      AscendingCons(x, s, rank);
    } else {
      InsertAscending(x, s[1..], rank);
      InsertBound(x, s[1..], rank, rank(s[0]));
      AscendingCons(s[0], Insert(x, s[1..], rank), rank);
    }
  }

  /** Inserting `x` puts it at the head of its class of ties and leaves the other classes alone. */
  lemma {:induction false} InsertTies<T(!new)>(x: T, s: seq<T>, rank: T -> int, k: int)
    ensures WithRank(Insert(x, s, rank), rank, k)
         == (if rank(x) == k then [x] else []) + WithRank(s, rank, k)
  {
    if |s| == 0 || rank(x) <= rank(s[0]) {
      assert ([x] + s)[1..] == s;
      TailTies([x] + s, rank, k);
    } else {
      var r' := Insert(x, s[1..], rank);
      assert ([s[0]] + r')[1..] == r';
      TailTies([s[0]] + r', rank, k);
      InsertTies(x, s[1..], rank, k);
      TailTies(s, rank, k);
    }
  }

  /** Insertion sort by ascending rank; elements of equal rank keep their order. */
  function Sort<T(!new)>(s: seq<T>, rank: T -> int): (r: seq<T>)
    ensures multiset(r) == multiset(s)
    ensures Ascending(r, rank)
    ensures SameTies(r, s, rank)
  {
    if |s| == 0 then []
    else
      var rest := Sort(s[1..], rank);
      assert s == [s[0]] + s[1..];
      var r := Insert(s[0], rest, rank);
      InsertAscending(s[0], rest, rank);
      assert SameTies(r, s, rank) by {
        forall k ensures WithRank(r, rank, k) == WithRank(s, rank, k) {
          InsertTies(s[0], rest, rank, k);
        }
      }
      r
  }

  /** Two ascending sequences with the same classes of ties are the same sequence. */
  lemma {:induction false} TiesDetermineOrder<T(!new)>(r1: seq<T>, r2: seq<T>, rank: T -> int)
    requires Ascending(r1, rank) && Ascending(r2, rank)
    requires SameTies(r1, r2, rank)
    ensures r1 == r2
  {
    if |r1| == 0 {
      NoTiesIsEmpty(r1, r2, rank);
    } else if |r2| == 0 {
      NoTiesIsEmpty(r2, r1, rank);
    } else {
      SameHead(r1, r2, rank);
      SameTiesTail(r1, r2, rank);
      TiesDetermineOrder(r1[1..], r2[1..], rank);
      assert r1 == [r1[0]] + r1[1..];
      assert r2 == [r2[0]] + r2[1..];
    }
  }

  /** Two non-empty ascending sequences with the same classes of ties start alike. */
  lemma SameHead<T(!new)>(r1: seq<T>, r2: seq<T>, rank: T -> int)
    requires |r1| > 0 && |r2| > 0
    requires Ascending(r1, rank) && Ascending(r2, rank)
    requires SameTies(r1, r2, rank)
    ensures r1[0] == r2[0]
  {
    var k1, k2 := rank(r1[0]), rank(r2[0]);
    HeadOfTies(r1, rank);
    HeadOfTies(r2, rank);
    // each head occurs in the other sequence, whose head has the least rank
    assert r1[0] in WithRank(r2, rank, k1);
    assert r2[0] in WithRank(r1, rank, k2);
    SelectCount(r2, (x: T) => rank(x) == k1, r1[0]);
    SelectCount(r1, (x: T) => rank(x) == k2, r2[0]);
    LeastRankFirst(r2, rank, r1[0]);
    LeastRankFirst(r1, rank, r2[0]);
    assert k1 == k2;
    assert WithRank(r1, rank, k1) == WithRank(r2, rank, k1);
    assert r1[0] == WithRank(r1, rank, k1)[0] == WithRank(r2, rank, k1)[0] == r2[0];
  }

  /** Dropping a common head keeps the classes of ties equal. */
  lemma SameTiesTail<T(!new)>(r1: seq<T>, r2: seq<T>, rank: T -> int)
    requires |r1| > 0 && |r2| > 0 && r1[0] == r2[0]
    requires SameTies(r1, r2, rank)
    ensures SameTies(r1[1..], r2[1..], rank)
  {
    forall k ensures WithRank(r1[1..], rank, k) == WithRank(r2[1..], rank, k) {
      TailTies(r1, rank, k);
      TailTies(r2, rank, k);
      var w := WithRank(r1, rank, k);
      assert w == WithRank(r2, rank, k);
      if rank(r1[0]) == k {
        assert WithRank(r1[1..], rank, k) == w[1..] == WithRank(r2[1..], rank, k);
      } else {
        assert WithRank(r1[1..], rank, k) == w == WithRank(r2[1..], rank, k);
      }
    }
  }

  /** Only an empty sequence has the (empty) classes of ties of an empty sequence. */
  lemma NoTiesIsEmpty<T(!new)>(r1: seq<T>, r2: seq<T>, rank: T -> int)
    requires |r1| == 0 && SameTies(r2, r1, rank)
    ensures |r2| == 0
  {
    if |r2| > 0 {
      HeadOfTies(r2, rank);
    }
  }

  /** The class of ties of the head starts with the head. */
  lemma HeadOfTies<T(!new)>(s: seq<T>, rank: T -> int)
    requires |s| > 0
    ensures WithRank(s, rank, rank(s[0])) == [s[0]] + WithRank(s[1..], rank, rank(s[0]))
  {
  }

  /** Each class of ties of `s` is that of its tail, preceded by the head when it belongs. */
  lemma TailTies<T(!new)>(s: seq<T>, rank: T -> int, k: int)
    requires |s| > 0
    ensures WithRank(s, rank, k)
         == (if rank(s[0]) == k then [s[0]] else []) + WithRank(s[1..], rank, k)
  {
  }

  /** The head of an ascending sequence has the least rank. */
  lemma LeastRankFirst<T(!new)>(s: seq<T>, rank: T -> int, x: T)
    requires Ascending(s, rank) && x in s
    ensures rank(s[0]) <= rank(x)
  {
  }

  /** The sort is the only ascending arrangement of `s` that keeps its classes of ties. */
  lemma SortCharacterised<T(!new)>(s: seq<T>, r: seq<T>, rank: T -> int)
    ensures r == Sort(s, rank) <==> Ascending(r, rank) && SameTies(r, s, rank)
  {
    var sorted := Sort(s, rank);
    if Ascending(r, rank) && SameTies(r, s, rank) {
      TiesDetermineOrder(r, sorted, rank);
    }
  }

  /** Each class of ties of a concatenation is the concatenation of the classes. */
  lemma WithRankConcat<T(!new)>(a: seq<T>, b: seq<T>, rank: T -> int, k: int)
    ensures WithRank(a + b, rank, k) == WithRank(a, rank, k) + WithRank(b, rank, k)
  {
    SelectConcat(a, b, (x: T) => rank(x) == k);
  }

  /** A class of ties is empty when no element has that rank. */
  lemma NoTiesOfRank<T(!new)>(s: seq<T>, rank: T -> int, k: int)
    requires forall i :: 0 <= i < |s| ==> rank(s[i]) != k
    ensures WithRank(s, rank, k) == []
  {
    var w := WithRank(s, rank, k);
    if w != [] {
      SelectCount(s, (x: T) => rank(x) == k, w[0]);
    }
  }

  /** Sorting keeps exactly the elements it was given. */
  lemma SortMembers<T(!new)>(s: seq<T>, rank: T -> int, x: T)
    ensures x in Sort(s, rank) <==> x in s
  {
    assert x in Sort(s, rank) <==> x in multiset(Sort(s, rank));
  }

  /** An element ranked at least as high as every other, arriving last, is sorted last. */
  lemma {:induction false} SortAppendLast<T(!new)>(s: seq<T>, x: T, rank: T -> int)
    requires forall i :: 0 <= i < |s| ==> rank(s[i]) <= rank(x)
    ensures Sort(s + [x], rank) == Sort(s, rank) + [x]
  {
    var sorted := Sort(s, rank);
    var r := sorted + [x];
    forall i, j | 0 <= i < j < |r| ensures rank(r[i]) <= rank(r[j]) {
      SortMembers(s, rank, r[i]);
      if j < |sorted| {
        assert r[i] == sorted[i] && r[j] == sorted[j];
      }
    }
    forall k ensures WithRank(r, rank, k) == WithRank(s + [x], rank, k) {
      WithRankConcat(sorted, [x], rank, k);
      WithRankConcat(s, [x], rank, k);
    }
    SortCharacterised(s + [x], r, rank);
  }

  /** An element ranked strictly below every other, arriving last, is sorted first. */
  lemma {:induction false} SortAppendFirst<T(!new)>(s: seq<T>, x: T, rank: T -> int)
    requires forall i :: 0 <= i < |s| ==> rank(x) < rank(s[i])
    ensures Sort(s + [x], rank) == [x] + Sort(s, rank)
  {
    var sorted := Sort(s, rank);
    var r := [x] + sorted;
    forall i, j | 0 <= i < j < |r| ensures rank(r[i]) <= rank(r[j]) {
      assert r[j] == sorted[j - 1];
      SortMembers(s, rank, r[j]);
      if i > 0 {
        assert r[i] == sorted[i - 1];
      }
    }
    forall k ensures WithRank(r, rank, k) == WithRank(s + [x], rank, k) {
      WithRankConcat([x], sorted, rank, k);
      WithRankConcat(s, [x], rank, k);
      if k == rank(x) {
        NoTiesOfRank(s, rank, k);
      } else {
        assert WithRank([x], rank, k) == [];
      }
    }
    SortCharacterised(s + [x], r, rank);
  }
}
