/** Sequence operations the handlers and views share: JavaScript's `filter`,
    `slice(0, n)` and `reverse`, and the ordering that a `.sort({ key: 1 })`
    query asks of the store. */
module Seqs {
  import opened Wrappers

  /** `s.filter(p)`: the elements that satisfy `p`, in their original order. */
  function Filter<T>(s: seq<T>, p: T -> bool): (r: seq<T>)
    ensures |r| <= |s|
    ensures forall i :: 0 <= i < |r| ==> p(r[i])
    ensures forall i :: 0 <= i < |r| ==> r[i] in s
    ensures forall i :: 0 <= i < |s| && p(s[i]) ==> s[i] in r
    ensures multiset(r) <= multiset(s)
  {
    if s == [] then []
    else
      assert s == [s[0]] + s[1..];
      if p(s[0]) then [s[0]] + Filter(s[1..], p)
      else Filter(s[1..], p)
  }

  /** Filtering distributes over concatenation. */
  lemma {:induction false} FilterAppend<T>(a: seq<T>, b: seq<T>, p: T -> bool)
    ensures Filter(a + b, p) == Filter(a, p) + Filter(b, p)
  {
    if a == [] {
      assert a + b == b;
    } else {
      assert (a + b)[1..] == a[1..] + b;
      FilterAppend(a[1..], b, p);
    }
  }

  /** `rel` holds between every element and every later one. */
  predicate Pairwise<T>(s: seq<T>, rel: (T, T) -> bool)
  {
    forall i, j :: 0 <= i < j < |s| ==> rel(s[i], s[j])
  }

  /** A relation that holds between every earlier and later element still
      holds after filtering (distinct ids stay distinct, say). */
  lemma {:induction false} FilterKeepsPairwise<T>(s: seq<T>, p: T -> bool, rel: (T, T) -> bool)
    requires Pairwise(s, rel)
    ensures Pairwise(Filter(s, p), rel)
  {
    if s != [] {
      PairwiseTail(s, rel);
      FilterKeepsPairwise(s[1..], p, rel);
      var rest := Filter(s[1..], p);
      if p(s[0]) {
        HeadRelatesToKept(s, p, rel);
        PairwiseCons(s[0], rest, rel);
        assert Filter(s, p) == [s[0]] + rest;
      } else {
        assert Filter(s, p) == rest;
      }
    }
  }

  /** Dropping the head keeps a pairwise relation. */
  lemma PairwiseTail<T>(s: seq<T>, rel: (T, T) -> bool)
    requires s != [] && Pairwise(s, rel)
    ensures Pairwise(s[1..], rel)
  {
    var tail := s[1..];
    forall i, j | 0 <= i < j < |tail|
      ensures rel(tail[i], tail[j])
    {
      assert tail[i] == s[i + 1] && tail[j] == s[j + 1];
    }
  }

  /** The head is related to every later element that the filter keeps. */
  lemma HeadRelatesToKept<T>(s: seq<T>, p: T -> bool, rel: (T, T) -> bool)
    requires s != [] && Pairwise(s, rel)
    ensures forall k :: 0 <= k < |Filter(s[1..], p)| ==> rel(s[0], Filter(s[1..], p)[k])
  {
    var tail := s[1..];
    var rest := Filter(tail, p);
    forall k | 0 <= k < |rest|
      ensures rel(s[0], rest[k])
    {
      var j :| 0 <= j < |tail| && tail[j] == rest[k];
      assert s[j + 1] == rest[k];
    }
  }

  /** A head related to every element of a pairwise tail extends it. */
  lemma PairwiseCons<T>(x: T, t: seq<T>, rel: (T, T) -> bool)
    requires Pairwise(t, rel)
    requires forall k :: 0 <= k < |t| ==> rel(x, t[k])
    ensures Pairwise([x] + t, rel)
  {
    var r := [x] + t;
    forall i, j | 0 <= i < j < |r|
      ensures rel(r[i], r[j])
    {
      if i == 0 {
        assert r[j] == t[j - 1];
      } else {
        assert r[i] == t[i - 1] && r[j] == t[j - 1];
      }
    }
  }

  /** Filtering a sequence whose every element passes changes nothing. */
  lemma {:induction false} FilterAllPass<T>(s: seq<T>, p: T -> bool)
    requires forall i :: 0 <= i < |s| ==> p(s[i])
    ensures Filter(s, p) == s
  {
    if s != [] {
      FilterAllPass(s[1..], p);
      assert s == [s[0]] + s[1..];
    }
  }

  /** Filtering out the one element that fails removes exactly its position. */
  lemma {:induction false} FilterDropsOne<T>(s: seq<T>, p: T -> bool, k: nat)
    requires k < |s| && !p(s[k])
    requires forall i :: 0 <= i < |s| && i != k ==> p(s[i])
    ensures Filter(s, p) == s[..k] + s[k + 1..]
  {
    var tail := s[1..];
    TailPassesBut(s, p, k);
    if k == 0 {
      FilterAllPass(tail, p);
    } else {
      FilterDropsOne(tail, p, k - 1);
      ConsSlices(s, k);
    }
  }

  /** What the hypothesis of `FilterDropsOne` says about the tail. */
  lemma TailPassesBut<T>(s: seq<T>, p: T -> bool, k: nat)
    requires k < |s|
    requires forall i :: 0 <= i < |s| && i != k ==> p(s[i])
    ensures k == 0 ==> forall i :: 0 <= i < |s[1..]| ==> p(s[1..][i])
    ensures k > 0 ==> p(s[0]) && forall i :: 0 <= i < |s[1..]| && i != k - 1 ==> p(s[1..][i])
  {
  }

  /** Removing position k is keeping the head and removing position k - 1 of the tail. */
  lemma ConsSlices<T>(s: seq<T>, k: nat)
    requires 0 < k < |s|
    ensures s[..k] + s[k + 1..] == [s[0]] + (s[1..][..k - 1] + s[1..][k..])
  {
  }

  /** Filtering keeps every element that satisfies the predicate: nothing else
      is lost, counted with multiplicity. */
  lemma {:induction false} FilterMultiset<T>(s: seq<T>, p: T -> bool, x: T)
    ensures multiset(Filter(s, p))[x] == if p(x) then multiset(s)[x] else 0
  {
    if s != [] {
      assert s == [s[0]] + s[1..];
      FilterMultiset(s[1..], p, x);
    }
  }

  /** The positions of `s` whose element satisfies `p`. */
  function MatchingPositions<T>(s: seq<T>, p: T -> bool): set<nat>
  {
    set i: nat | i < |s| && p(s[i])
  }

  /** The length of a filtered sequence is the number of positions whose
      element satisfies the predicate. */
  lemma {:induction false} FilterLengthCountsMatches<T>(s: seq<T>, p: T -> bool)
    ensures |Filter(s, p)| == |MatchingPositions(s, p)|
  {
    if s != [] {
      var init, last := s[..|s| - 1], s[|s| - 1];
      assert s == init + [last];
      FilterLengthCountsMatches(init, p);
      FilterAppend(init, [last], p);
      assert |Filter([last], p)| == if p(last) then 1 else 0 by {
        assert [last][1..] == [];
      }
      MatchingPositionsSnoc(init, last, p);
    }
  }

  /** Appending one element adds its position exactly when it matches. */
  lemma MatchingPositionsSnoc<T>(init: seq<T>, last: T, p: T -> bool)
    ensures |MatchingPositions(init + [last], p)| == |MatchingPositions(init, p)| + if p(last) then 1 else 0
  {
    var s := init + [last];
    var before := MatchingPositions(init, p);
    var extra: set<nat> := if p(last) then {|init|} else {};
    forall i: nat
      ensures i in MatchingPositions(s, p) <==> i in before + extra
    {
      if i < |init| {
        assert s[i] == init[i];
      }
    }
    assert MatchingPositions(s, p) == before + extra;
    assert |init| !in before;
  }

  /** `s.find(p)`: the first element that satisfies `p`, if any. */
  function Find<T>(s: seq<T>, p: T -> bool): (r: Option<T>)
    ensures r.None? <==> forall i :: 0 <= i < |s| ==> !p(s[i])
    ensures r.Some? ==> exists i :: 0 <= i < |s| && s[i] == r.value && p(s[i]) && forall j :: 0 <= j < i ==> !p(s[j])
  {
    if s == [] then None
    else if p(s[0]) then Some(s[0])
    else
      var r := Find(s[1..], p);
      assert r.Some? ==> exists i :: 0 <= i < |s| - 1 && s[1..][i] == r.value && p(s[1..][i]) && forall j :: 0 <= j < i ==> !p(s[1..][j]);
      assert forall i :: 0 <= i < |s| - 1 ==> s[1..][i] == s[i + 1];
      r
  }

  /** `s.findIndex(p)`: the position of the first element that satisfies `p`,
      or -1 when none does. */
  function FindIndex<T>(s: seq<T>, p: T -> bool): (k: int)
    ensures -1 <= k < |s|
    ensures 0 <= k ==> p(s[k]) && forall j :: 0 <= j < k ==> !p(s[j])
    ensures k < 0 ==> forall j :: 0 <= j < |s| ==> !p(s[j])
  {
    if s == [] then -1
    else if p(s[0]) then 0
    else
      var k := FindIndex(s[1..], p);
      assert forall j :: 0 <= j < |s| - 1 ==> s[1..][j] == s[j + 1];
      if k < 0 then -1 else k + 1
  }

  /** A matching element guarantees that the search finds something. */
  lemma FindSomeWhenMatch<T>(s: seq<T>, p: T -> bool, i: nat)
    requires i < |s| && p(s[i])
    ensures Find(s, p).Some?
  {
  }

  /** `s.slice(0, n)`: the first n elements, or all of them when there are fewer. */
  function Take<T>(s: seq<T>, n: nat): (r: seq<T>)
    ensures |r| == if |s| < n then |s| else n
    ensures forall i :: 0 <= i < |r| ==> r[i] == s[i]
  {
    if |s| <= n then s else s[..n]
  }

  /** A prefix holds some of the elements, and a prefix of a sorted sequence
      is sorted. */
  lemma TakePrefix<T>(s: seq<T>, n: nat, key: T -> int)
    ensures multiset(Take(s, n)) <= multiset(s)
    ensures SortedBy(s, key) ==> SortedBy(Take(s, n), key)
  {
    var t := Take(s, n);
    assert s == t + s[|t|..];
    assert multiset(s) == multiset(t) + multiset(s[|t|..]);
  }

  /** Taking a prefix of a sorted sequence keeps the smallest keys: whatever is
      left out has a key no smaller than any kept element's. */
  lemma TakeOfSorted<T>(s: seq<T>, n: nat, key: T -> int, x: T)
    requires SortedBy(s, key) && x in s && x !in Take(s, n)
    ensures forall j :: 0 <= j < |Take(s, n)| ==> key(Take(s, n)[j]) <= key(x)
  {
    var t := Take(s, n);
    var i :| 0 <= i < |s| && s[i] == x;
    assert i >= |t|;
  }

  /** `s.slice().reverse()`. */
  function Reverse<T>(s: seq<T>): (r: seq<T>)
    ensures |r| == |s|
  {
    if s == [] then [] else Reverse(s[1..]) + [s[0]]
  }

  /** Element k of the reversal is element |s|-1-k of the original. */
  lemma {:induction false} ReverseAt<T>(s: seq<T>, k: nat)
    requires k < |s|
    ensures Reverse(s)[k] == s[|s| - 1 - k]
  {
    if k < |s| - 1 {
      ReverseAt(s[1..], k);
    }
  }

  /** A sequence that mirrors s position by position is its reversal. */
  lemma ReverseByIndex<T>(s: seq<T>, t: seq<T>)
    requires |t| == |s|
    requires forall k :: 0 <= k < |s| ==> t[k] == s[|s| - 1 - k]
    ensures Reverse(s) == t
  {
    forall k | 0 <= k < |s|
      ensures Reverse(s)[k] == t[k]
    {
      ReverseAt(s, k);
    }
  }

  /** Reversing twice gives back the original sequence. */
  lemma ReverseInvolution<T>(s: seq<T>)
    ensures Reverse(Reverse(s)) == s
  {
    forall k | 0 <= k < |s|
      ensures Reverse(Reverse(s))[k] == s[k]
    {
      ReverseAt(Reverse(s), k);
      ReverseAt(s, |s| - 1 - k);
    }
  }

  /** Non-decreasing by `key`. */
  predicate SortedBy<T>(s: seq<T>, key: T -> int)
  {
    forall i, j :: 0 <= i < j < |s| ==> key(s[i]) <= key(s[j])
  }

  /** Places x in front of the first element of a sorted s with a larger key. */
  function Insert<T>(x: T, s: seq<T>, key: T -> int): (r: seq<T>)
    requires SortedBy(s, key)
    ensures SortedBy(r, key)
    ensures multiset(r) == multiset(s) + multiset{x}
    ensures |r| == |s| + 1
  {
    if s == [] || key(x) <= key(s[0]) then
      PrependSmallest(x, s, key);
      [x] + s
    else
      SortedTail(s, key);
      var rest := Insert(x, s[1..], key);
      ConsAfterHead(s, x, rest, key);
      [s[0]] + rest
  }

  /** The tail of a sorted sequence is sorted. */
  lemma SortedTail<T>(s: seq<T>, key: T -> int)
    requires SortedBy(s, key) && s != []
    ensures SortedBy(s[1..], key)
  {
    assert forall i :: 0 <= i < |s| - 1 ==> s[1..][i] == s[i + 1];
  }

  /** An element no larger than the head of a sorted sequence can go in front. */
  lemma PrependSmallest<T>(x: T, s: seq<T>, key: T -> int)
    requires SortedBy(s, key) && (s == [] || key(x) <= key(s[0]))
    ensures SortedBy([x] + s, key)
    ensures multiset([x] + s) == multiset(s) + multiset{x}
  {
    var r := [x] + s;
    forall i, j | 0 <= i < j < |r|
      ensures key(r[i]) <= key(r[j])
    {
      if i == 0 {
        assert r[j] == s[j - 1];
        assert key(s[0]) <= key(s[j - 1]) || j == 1;
      } else {
        assert r[i] == s[i - 1] && r[j] == s[j - 1];
      }
    }
  }

  /** A head smaller than x stays in front of the tail with x inserted. */
  lemma ConsAfterHead<T>(s: seq<T>, x: T, rest: seq<T>, key: T -> int)
    requires SortedBy(s, key) && s != [] && key(s[0]) < key(x)
    requires SortedBy(rest, key) && multiset(rest) == multiset(s[1..]) + multiset{x}
    ensures SortedBy([s[0]] + rest, key)
    ensures multiset([s[0]] + rest) == multiset(s) + multiset{x}
  {
    assert forall k :: 0 < k < |s| ==> key(s[0]) <= key(s[k]);
    assert forall k :: 0 <= k < |s| - 1 ==> key(s[0]) <= key(s[1..][k]);
    LowerBoundKept(s[0], x, s[1..], rest, key);
    var r := [s[0]] + rest;
    forall i, j | 0 <= i < j < |r|
      ensures key(r[i]) <= key(r[j])
    {
      if i == 0 {
        assert r[j] == rest[j - 1];
      } else {
        assert r[i] == rest[i - 1] && r[j] == rest[j - 1];
      }
    }
    assert s == [s[0]] + s[1..];
  }

  /** A key bound that holds for x and for all of s holds for any rearrangement
      of s with x added. */
  lemma LowerBoundKept<T>(y: T, x: T, s: seq<T>, r: seq<T>, key: T -> int)
    requires key(y) <= key(x)
    requires forall k :: 0 <= k < |s| ==> key(y) <= key(s[k])
    requires multiset(r) == multiset(s) + multiset{x}
    ensures forall k :: 0 <= k < |r| ==> key(y) <= key(r[k])
  {
    forall k | 0 <= k < |r|
      ensures key(y) <= key(r[k])
    {
      assert r[k] in multiset(r);
      if r[k] != x {
        assert r[k] in multiset(s);
        assert r[k] in s;
      }
    }
  }

  /** A stable sort by ascending key: what the store returns for `.sort({ key: 1 })`
      (and, with the key negated, for `.sort({ key: -1 })`). */
  function SortBy<T>(s: seq<T>, key: T -> int): (r: seq<T>)
    ensures SortedBy(r, key)
    ensures multiset(r) == multiset(s)
    ensures |r| == |s|
  {
    if s == [] then []
    else
      assert s == [s[0]] + s[1..];
      Insert(s[0], SortBy(s[1..], key), key)
  }
}
