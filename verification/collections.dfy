/** A document collection as the store holds it: documents in natural
    (insertion) order, each under its `_id`, with the query primitives the
    handlers use (`find_one`, `update_one`, filtered `find`, `count_documents`,
    `sort`, `skip`/`limit`). */
module Collections {
  import opened Wrappers
  import opened ObjectIds

  datatype Keyed<T> = Keyed(id: ObjectId, doc: T)

  /** Record `k` is the first record carrying its `_id`. */
  predicate IsFirst<T>(c: seq<Keyed<T>>, k: int)
    requires 0 <= k < |c|
  {
    forall j :: 0 <= j < k ==> c[j].id != c[k].id
  }

  /** Position of the first record with `_id == id`. */
  function IndexOf<T>(c: seq<Keyed<T>>, id: ObjectId): (r: Option<nat>)
    ensures r.Some? ==> r.value < |c| && c[r.value].id == id && IsFirst(c, r.value)
    ensures r.None? ==> forall j :: 0 <= j < |c| ==> c[j].id != id
  {
    if |c| == 0 then None
    else if c[0].id == id then Some(0)
    else match IndexOf(c[1..], id)
      case None => None
      case Some(k) => Some(k + 1)
  }

  lemma IndexOfFirst<T>(c: seq<Keyed<T>>, k: int)
    requires 0 <= k < |c| && IsFirst(c, k)
    ensures IndexOf(c, c[k].id) == Some(k)
  {
  }

  /** `find_one({"_id": id})`. */
  function Find<T>(c: seq<Keyed<T>>, id: ObjectId): (r: Option<T>)
    ensures r.Some? <==> exists k :: 0 <= k < |c| && c[k].id == id
    ensures r.Some? ==> exists k :: 0 <= k < |c| && c[k].id == id && IsFirst(c, k) && c[k].doc == r.value
  {
    match IndexOf(c, id)
    case None => None
    case Some(k) => Some(c[k].doc)
  }

  /** `update_one({"_id": id}, ...)`: `f` rewrites the first record with that
      `_id`; nothing else changes. */
  function UpdateFirst<T>(c: seq<Keyed<T>>, id: ObjectId, f: T -> T): (r: seq<Keyed<T>>)
    ensures |r| == |c|
    ensures forall k :: 0 <= k < |c| ==> r[k].id == c[k].id
    ensures forall k :: 0 <= k < |c| ==>
              r[k].doc == (if c[k].id == id && IsFirst(c, k) then f(c[k].doc) else c[k].doc)
  {
    match IndexOf(c, id)
    case None => c
    case Some(k) => c[k := Keyed(id, f(c[k].doc))]
  }

  /** `find_one` after `update_one` on the same `_id` sees the rewritten
      document. */
  lemma FindUpdateFirst<T>(c: seq<Keyed<T>>, id: ObjectId, f: T -> T)
    ensures Find(UpdateFirst(c, id, f), id) == if Find(c, id).Some? then Some(f(Find(c, id).value)) else None
  {
    var r := UpdateFirst(c, id, f);
    match IndexOf(c, id)
    case None =>
    case Some(k) =>
      IndexOfFirst(r, k);
  }

  /** Repeating an `update_one` whose rewrite is idempotent changes nothing
      further. */
  lemma UpdateFirstIdempotent<T>(c: seq<Keyed<T>>, id: ObjectId, f: T -> T)
    requires forall d :: f(f(d)) == f(d)
    ensures UpdateFirst(UpdateFirst(c, id, f), id, f) == UpdateFirst(c, id, f)
  {
    var once := UpdateFirst(c, id, f);
    var twice := UpdateFirst(once, id, f);
    forall k | 0 <= k < |c| ensures twice[k] == once[k] {
      SameIdsSameFirst(once, c, k);
    }
  }

  /** Two collections hold the same identities at the same positions. */
  predicate SameIds<T>(a: seq<Keyed<T>>, b: seq<Keyed<T>>) {
    |a| == |b| && forall k :: 0 <= k < |a| ==> a[k].id == b[k].id
  }

  lemma SameIdsSameFirst<T>(a: seq<Keyed<T>>, b: seq<Keyed<T>>, k: int)
    requires SameIds(a, b) && 0 <= k < |a|
    ensures IsFirst(a, k) <==> IsFirst(b, k)
  {
  }

  /** Number of elements satisfying `p`. */
  function Count<T>(s: seq<T>, p: T -> bool): nat {
    if |s| == 0 then 0 else (if p(s[0]) then 1 else 0) + Count(s[1..], p)
  }

  /** The elements satisfying `p`, in their original order (a filtered `find`). */
  function Filter<T>(s: seq<T>, p: T -> bool): (r: seq<T>)
    ensures |r| == Count(s, p)
    ensures forall i :: 0 <= i < |r| ==> p(r[i])
  {
    if |s| == 0 then []
    else if p(s[0]) then [s[0]] + Filter(s[1..], p) else Filter(s[1..], p)
  }

  /** Filtering keeps every matching element as often as it occurs, and
      nothing else. */
  lemma {:induction false} FilterMultiplicity<T>(s: seq<T>, p: T -> bool, x: T)
    ensures multiset(Filter(s, p))[x] == (if p(x) then multiset(s)[x] else 0)
  {
    if |s| > 0 {
      assert s == [s[0]] + s[1..];
      FilterMultiplicity(s[1..], p, x);
    }
  }

  lemma FilterSubMultiset<T>(s: seq<T>, p: T -> bool)
    ensures multiset(Filter(s, p)) <= multiset(s)
  {
    forall x ensures multiset(Filter(s, p))[x] <= multiset(s)[x] {
      FilterMultiplicity(s, p, x);
    }
  }

  /** A property holds all along a concatenation exactly when it holds all
      along both parts. */
  lemma AllConcat<T>(a: seq<T>, b: seq<T>, P: T -> bool)
    ensures (forall i :: 0 <= i < |a + b| ==> P((a + b)[i])) <==>
            (forall i :: 0 <= i < |a| ==> P(a[i])) && (forall i :: 0 <= i < |b| ==> P(b[i]))
  {
    if (forall i :: 0 <= i < |a| ==> P(a[i])) && (forall i :: 0 <= i < |b| ==> P(b[i])) {
      forall i | 0 <= i < |a + b| ensures P((a + b)[i]) {
        if i >= |a| {
          assert (a + b)[i] == b[i - |a|];
        }
      }
    }
    if forall i :: 0 <= i < |a + b| ==> P((a + b)[i]) {
      forall i | 0 <= i < |a| ensures P(a[i]) {
        assert (a + b)[i] == a[i];
      }
      forall i | 0 <= i < |b| ensures P(b[i]) {
        assert (a + b)[|a| + i] == b[i];
      }
    }
  }

  /** Filtering keeps order: filtering two sequences one after the other
      gives their filtered parts one after the other. */
  lemma {:induction false} FilterConcat<T>(a: seq<T>, b: seq<T>, p: T -> bool)
    ensures Filter(a + b, p) == Filter(a, p) + Filter(b, p)
    decreases |a|
  {
    if |a| > 0 {
      assert (a + b)[1..] == a[1..] + b;
      FilterConcat(a[1..], b, p);
    } else {
      assert a + b == b;
    }
  }

  lemma FilterMembership<T>(s: seq<T>, p: T -> bool, x: T)
    ensures x in Filter(s, p) <==> x in s && p(x)
  {
    FilterMultiplicity(s, p, x);
    assert x in Filter(s, p) <==> multiset(Filter(s, p))[x] > 0;
    assert x in s <==> multiset(s)[x] > 0;
  }

  /** Elements drawn from a filtered sequence come from the sequence and
      satisfy the filter. */
  lemma FilteredMembers<T(!new)>(s: seq<T>, p: T -> bool, m: seq<T>)
    requires forall i :: 0 <= i < |m| ==> m[i] in Filter(s, p)
    ensures forall i :: 0 <= i < |m| ==> m[i] in s && p(m[i])
  {
    forall i | 0 <= i < |m| ensures m[i] in s && p(m[i]) {
      FilterMembership(s, p, m[i]);
    }
  }

  function Min(a: int, b: int): int { if a <= b then a else b }
  function Max(a: int, b: int): int { if a >= b then a else b }

  /** `.skip(offset).limit(limit)`. */
  function Window<T>(s: seq<T>, offset: nat, limit: nat): (r: seq<T>)
    ensures |r| == Min(limit, Max(0, |s| - offset))
    ensures forall i :: 0 <= i < |r| ==> r[i] == s[offset + i]
  {
    if offset >= |s| then []
    else if offset + limit >= |s| then s[offset..]
    else s[offset..offset + limit]
  }

  predicate SortedBy<T>(s: seq<T>, key: T -> int) {
    forall i, j :: 0 <= i < j < |s| ==> key(s[i]) <= key(s[j])
  }

  /** Places `x` before the first element whose key is not smaller. */
  function Insert<T>(x: T, s: seq<T>, key: T -> int): seq<T> {
    if |s| == 0 || key(x) <= key(s[0]) then [x] + s
    else [s[0]] + Insert(x, s[1..], key)
  }

  /** A bound below `x` and every element of `s` stays below every element
      after the insertion. */
  lemma {:induction false} InsertLowerBound<T>(x: T, s: seq<T>, key: T -> int, b: int)
    requires b <= key(x) && forall i :: 0 <= i < |s| ==> b <= key(s[i])
    ensures forall i :: 0 <= i < |Insert(x, s, key)| ==> b <= key(Insert(x, s, key)[i])
  {
    if |s| > 0 && key(x) > key(s[0]) {
      InsertLowerBound(x, s[1..], key, b);
    }
  }

  lemma {:induction false} InsertSorted<T>(x: T, s: seq<T>, key: T -> int)
    requires SortedBy(s, key)
    ensures SortedBy(Insert(x, s, key), key)
  {
    if |s| > 0 && key(x) > key(s[0]) {
      var rest := Insert(x, s[1..], key);
      InsertSorted(x, s[1..], key);
      InsertLowerBound(x, s[1..], key, key(s[0]));
      var r := [s[0]] + rest;
      forall i, j | 0 <= i < j < |r| ensures key(r[i]) <= key(r[j]) {
        assert r[j] == rest[j - 1];
        if i > 0 { assert r[i] == rest[i - 1]; }
      }
    }
  }

  lemma {:induction false} InsertMultiset<T>(x: T, s: seq<T>, key: T -> int)
    ensures multiset(Insert(x, s, key)) == multiset(s) + multiset{x}
  {
    if |s| > 0 && key(x) > key(s[0]) {
      assert s == [s[0]] + s[1..];
      InsertMultiset(x, s[1..], key);
    }
  }

  /** `.sort(key, 1)`: ascending by `key`.  The relative order of records
      with equal keys is not fixed (the store does not promise one either). */
  function SortBy<T>(s: seq<T>, key: T -> int): (r: seq<T>)
    ensures SortedBy(r, key)
    ensures multiset(r) == multiset(s)
  {
    if |s| == 0 then []
    else
      var rest := SortBy(s[1..], key);
      assert s == [s[0]] + s[1..];
      InsertSorted(s[0], rest, key);
      InsertMultiset(s[0], rest, key);
      Insert(s[0], rest, key)
  }

  /** `.sort(key, 1).skip(offset).limit(limit)`: a page of `s` in key order. */
  function SortedWindow<T(==)>(s: seq<T>, key: T -> int, offset: nat, limit: nat): (r: seq<T>)
    ensures |r| == Min(limit, Max(0, |s| - offset))
    ensures forall i :: 0 <= i < |r| ==> r[i] in s
    ensures SortedBy(r, key)
  {
    var sorted := SortBy(s, key);
    var page := Window(sorted, offset, limit);
    forall i | 0 <= i < |page| ensures page[i] in s {
      assert page[i] == sorted[offset + i];
      assert multiset(sorted)[page[i]] > 0;
    }
    page
  }

  /** Number of elements satisfying `p` whose key is below `bound`. */
  function CountBelow<T>(s: seq<T>, p: T -> bool, key: T -> int, bound: int): nat {
    if |s| == 0 then 0
    else (if p(s[0]) && key(s[0]) < bound then 1 else 0) + CountBelow(s[1..], p, key, bound)
  }

  /** The element at the head of `r` has at most `n` matches with a smaller
      key and more than `n` with a key no larger, the next one the same
      with `n + 1`, and so on: `r` sits at positions `n, n + 1, ...` of the
      matches of `p` in key order. */
  predicate RanksFrom<T>(r: seq<T>, s: seq<T>, p: T -> bool, key: T -> int, n: int)
    decreases |r|
  {
    |r| == 0 ||
    (&& p(r[0])
     && CountBelow(s, p, key, key(r[0])) <= n < CountBelow(s, p, key, key(r[0]) + 1)
     && RanksFrom(r[1..], s, p, key, n + 1))
  }

  /** `r` is a stretch of the elements of `s` satisfying `p`, taken in key
      order from position `offset` on, using each element of `s` at most as
      often as it occurs there. */
  predicate PageAt<T(==)>(r: seq<T>, s: seq<T>, p: T -> bool, key: T -> int, offset: nat) {
    multiset(r) <= multiset(s) && RanksFrom(r, s, p, key, offset)
  }

  /** The rank condition at one position. */
  lemma {:induction false} RanksFromAt<T>(r: seq<T>, s: seq<T>, p: T -> bool, key: T -> int, n: int, i: int, x: T)
    requires RanksFrom(r, s, p, key, n) && 0 <= i < |r| && x == r[i]
    ensures p(x)
    ensures CountBelow(s, p, key, key(x)) <= n + i
    ensures n + i < CountBelow(s, p, key, key(x) + 1)
    decreases |r|
  {
    if i > 0 {
      assert r[1..][i - 1] == x;
      RanksFromAt(r[1..], s, p, key, n + 1, i - 1, x);
    }
  }

  /** The rank condition holds at every position exactly when it holds
      position by position. */
  lemma {:induction false} RanksFromIff<T>(r: seq<T>, s: seq<T>, p: T -> bool, key: T -> int, n: int)
    ensures RanksFrom(r, s, p, key, n) <==>
              forall i :: 0 <= i < |r| ==>
                p(r[i]) && CountBelow(s, p, key, key(r[i])) <= n + i < CountBelow(s, p, key, key(r[i]) + 1)
  {
    if RanksFrom(r, s, p, key, n) {
      forall i | 0 <= i < |r|
        ensures p(r[i]) && CountBelow(s, p, key, key(r[i])) <= n + i < CountBelow(s, p, key, key(r[i]) + 1)
      {
        RanksFromAt(r, s, p, key, n, i, r[i]);
      }
    }
    if forall i :: 0 <= i < |r| ==>
         p(r[i]) && CountBelow(s, p, key, key(r[i])) <= n + i < CountBelow(s, p, key, key(r[i]) + 1) {
      RanksFromOfEach(r, s, p, key, n);
    }
  }

  lemma {:induction false} RanksFromOfEach<T>(r: seq<T>, s: seq<T>, p: T -> bool, key: T -> int, n: int)
    requires forall i :: 0 <= i < |r| ==>
               p(r[i]) && CountBelow(s, p, key, key(r[i])) <= n + i < CountBelow(s, p, key, key(r[i]) + 1)
    ensures RanksFrom(r, s, p, key, n)
    decreases |r|
  {
    if |r| > 0 {
      var tail := r[1..];
      forall i | 0 <= i < |tail|
        ensures p(tail[i]) && CountBelow(s, p, key, key(tail[i])) <= n + 1 + i < CountBelow(s, p, key, key(tail[i]) + 1)
      {
        var x := r[i + 1];
        assert tail[i] == x;
        assert p(x) && CountBelow(s, p, key, key(x)) <= n + (i + 1) < CountBelow(s, p, key, key(x) + 1);
      }
      RanksFromOfEach(tail, s, p, key, n + 1);
      var x := r[0];
      assert p(x) && CountBelow(s, p, key, key(x)) <= n + 0 < CountBelow(s, p, key, key(x) + 1);
      RanksFromCons(r, s, p, key, n, x);
    }
  }

  lemma {:induction false} CountBelowMonotone<T>(s: seq<T>, p: T -> bool, key: T -> int, b1: int, b2: int)
    ensures b1 <= b2 ==> CountBelow(s, p, key, b1) <= CountBelow(s, p, key, b2)
  {
    if |s| > 0 {
      CountBelowMonotone(s[1..], p, key, b1, b2);
    }
  }

  /** Filtering by `p` keeps every element `CountBelow` counts. */
  lemma {:induction false} CountBelowFilter<T>(s: seq<T>, p: T -> bool, key: T -> int, b: int)
    ensures CountBelow(Filter(s, p), p, key, b) == CountBelow(s, p, key, b)
  {
    if |s| > 0 {
      CountBelowFilter(s[1..], p, key, b);
      if p(s[0]) {
        assert ([s[0]] + Filter(s[1..], p))[1..] == Filter(s[1..], p);
      }
    }
  }

  lemma {:induction false} CountBelowInsert<T>(x: T, s: seq<T>, p: T -> bool, key: T -> int, b: int)
    ensures CountBelow(Insert(x, s, key), p, key, b) == CountBelow(s, p, key, b) + (if p(x) && key(x) < b then 1 else 0)
  {
    if |s| == 0 || key(x) <= key(s[0]) {
      assert ([x] + s)[1..] == s;
    } else {
      CountBelowInsert(x, s[1..], p, key, b);
      assert ([s[0]] + Insert(x, s[1..], key))[1..] == Insert(x, s[1..], key);
    }
  }

  /** Sorting does not change how many elements lie below a bound. */
  lemma {:induction false} CountBelowSortBy<T>(s: seq<T>, p: T -> bool, key: T -> int, b: int)
    ensures CountBelow(SortBy(s, key), p, key, b) == CountBelow(s, p, key, b)
  {
    if |s| > 0 {
      CountBelowSortBy(s[1..], p, key, b);
      CountBelowInsert(s[0], SortBy(s[1..], key), p, key, b);
    }
  }

  lemma {:induction false} CountBelowNone<T>(t: seq<T>, p: T -> bool, key: T -> int, b: int)
    requires forall i :: 0 <= i < |t| ==> b <= key(t[i])
    ensures CountBelow(t, p, key, b) == 0
  {
    if |t| > 0 {
      CountBelowNone(t[1..], p, key, b);
    }
  }

  /** In a key-ordered sequence of matches, the elements below a bound form
      a prefix, so an element's position tells which side of the bound it
      is on. */
  lemma {:induction false} SortedCountBelow<T>(t: seq<T>, p: T -> bool, key: T -> int, b: int, j: int)
    requires SortedBy(t, key) && forall i :: 0 <= i < |t| ==> p(t[i])
    requires 0 <= j < |t|
    ensures key(t[j]) < b ==> j < CountBelow(t, p, key, b)
    ensures b <= key(t[j]) ==> CountBelow(t, p, key, b) <= j
  {
    if j == 0 {
      if b <= key(t[0]) {
        CountBelowNone(t, p, key, b);
      }
    } else {
      assert key(t[0]) <= key(t[j]);
      SortedCountBelow(t[1..], p, key, b, j - 1);
    }
  }

  lemma WindowSubMultiset<T>(t: seq<T>, offset: nat, limit: nat)
    ensures multiset(Window(t, offset, limit)) <= multiset(t)
  {
    if offset < |t| {
      var e := Min(offset + limit, |t|);
      assert t == t[..offset] + t[offset..e] + t[e..];
      assert Window(t, offset, limit) == t[offset..e];
    }
  }

  /** The element at position `j` of the sorted matches is a match with at
      most `j` matches of smaller key and more than `j` of key no larger. */
  lemma SortedMatchRank<T>(s: seq<T>, p: T -> bool, key: T -> int, j: int, x: T)
    requires 0 <= j < |SortBy(Filter(s, p), key)| && x == SortBy(Filter(s, p), key)[j]
    ensures p(x)
    ensures CountBelow(s, p, key, key(x)) <= j
    ensures j < CountBelow(s, p, key, key(x) + 1)
  {
    SortedMatchesMatch(s, p, key);
    SortedRank(SortBy(Filter(s, p), key), p, key, j, x);
    CountBelowSortedMatches(s, p, key, key(x));
    CountBelowSortedMatches(s, p, key, key(x) + 1);
  }

  /** An element's position in a key-ordered sequence of matches lies
      between the counts below its key and up to its key. */
  lemma SortedRank<T>(t: seq<T>, p: T -> bool, key: T -> int, j: int, x: T)
    requires SortedBy(t, key) && forall i :: 0 <= i < |t| ==> p(t[i])
    requires 0 <= j < |t| && x == t[j]
    ensures CountBelow(t, p, key, key(x)) <= j
    ensures j < CountBelow(t, p, key, key(x) + 1)
  {
    var b := key(x);
    SortedCountBelow(t, p, key, b, j);
    SortedCountBelow(t, p, key, b + 1, j);
    assert j < CountBelow(t, p, key, b + 1);
  }

  lemma SortedMatchesMatch<T>(s: seq<T>, p: T -> bool, key: T -> int)
    ensures forall i :: 0 <= i < |SortBy(Filter(s, p), key)| ==> p(SortBy(Filter(s, p), key)[i])
  {
    var m := Filter(s, p);
    var t := SortBy(m, key);
    forall i | 0 <= i < |t| ensures p(t[i]) {
      assert t[i] in multiset(m);
      var k :| 0 <= k < |m| && m[k] == t[i];
    }
  }

  lemma CountBelowSortedMatches<T>(s: seq<T>, p: T -> bool, key: T -> int, b: int)
    ensures CountBelow(SortBy(Filter(s, p), key), p, key, b) == CountBelow(s, p, key, b)
  {
    CountBelowSortBy(Filter(s, p), p, key, b);
    CountBelowFilter(s, p, key, b);
  }

  lemma WindowHeadTail<T>(t: seq<T>, offset: nat, limit: nat)
    requires |Window(t, offset, limit)| > 0
    ensures Window(t, offset, limit)[0] == t[offset]
    ensures Window(t, offset, limit)[1..] == Window(t, offset + 1, limit - 1)
  {
    var e := Min(offset + limit, |t|);
    assert Window(t, offset, limit) == t[offset..e];
    assert Window(t, offset + 1, limit - 1) == t[offset + 1..e];
  }

  lemma RanksFromCons<T>(r: seq<T>, s: seq<T>, p: T -> bool, key: T -> int, n: int, x: T)
    requires |r| > 0 && r[0] == x && p(x)
    requires CountBelow(s, p, key, key(x)) <= n < CountBelow(s, p, key, key(x) + 1)
    requires RanksFrom(r[1..], s, p, key, n + 1)
    ensures RanksFrom(r, s, p, key, n)
  {
  }

  /** The window of the sorted matches sits at positions `offset, ...` of
      the matches in key order. */
  lemma {:induction false} WindowRanks<T>(s: seq<T>, p: T -> bool, key: T -> int, offset: nat, limit: nat)
    ensures RanksFrom(Window(SortBy(Filter(s, p), key), offset, limit), s, p, key, offset)
    decreases limit
  {
    var t := SortBy(Filter(s, p), key);
    var w := Window(t, offset, limit);
    if |w| > 0 {
      var x := t[offset];
      WindowHeadTail(t, offset, limit);
      SortedMatchRank(s, p, key, offset, x);
      WindowRanks(s, p, key, offset + 1, limit - 1);
      RanksFromCons(w, s, p, key, offset, x);
    }
  }

  /** The window of the sorted matches is the stretch of the matches at
      `offset` in key order. */
  lemma SortedMatchesPageAt<T>(s: seq<T>, p: T -> bool, key: T -> int, offset: nat, limit: nat)
    ensures PageAt(Window(SortBy(Filter(s, p), key), offset, limit), s, p, key, offset)
  {
    var t := SortBy(Filter(s, p), key);
    WindowSubMultiset(t, offset, limit);
    FilterSubMultiset(s, p);
    WindowRanks(s, p, key, offset, limit);
  }

  /** A filtered, sorted and windowed `find`: the page of the elements
      satisfying `p`, in key order, starting at position `offset`. */
  function FilteredPage<T(==,!new)>(s: seq<T>, p: T -> bool, key: T -> int, offset: nat, limit: nat): (r: seq<T>)
    ensures |r| == Min(limit, Max(0, Count(s, p) - offset))
    ensures forall i :: 0 <= i < |r| ==> r[i] in s && p(r[i])
    ensures SortedBy(r, key)
  {
    var matches := Filter(s, p);
    var page := SortedWindow(matches, key, offset, limit);
    assert |page| == Min(limit, Max(0, Count(s, p) - offset));
    FilteredMembers(s, p, page);
    page
  }

  /** The page is the stretch of the matches at `offset` in key order. */
  lemma FilteredPageAt<T(!new)>(s: seq<T>, p: T -> bool, key: T -> int, offset: nat, limit: nat)
    ensures PageAt(FilteredPage(s, p, key, offset, limit), s, p, key, offset)
  {
    SortedMatchesPageAt(s, p, key, offset, limit);
  }

  /** Elements of `s` satisfying `p` that share a key are the same element. */
  predicate KeysDistinct<T(==)>(s: seq<T>, p: T -> bool, key: T -> int) {
    forall i, j :: 0 <= i < |s| && 0 <= j < |s| && p(s[i]) && p(s[j]) && key(s[i]) == key(s[j]) ==> s[i] == s[j]
  }

  /** Two matches whose rank intervals share a position have the same key. */
  lemma SharedRankSameKey<T>(s: seq<T>, p: T -> bool, key: T -> int, n: int, x: T, y: T)
    requires CountBelow(s, p, key, key(x)) <= n < CountBelow(s, p, key, key(x) + 1)
    requires CountBelow(s, p, key, key(y)) <= n < CountBelow(s, p, key, key(y) + 1)
    ensures key(x) == key(y)
  {
    CountBelowMonotone(s, p, key, key(x) + 1, key(y));
    CountBelowMonotone(s, p, key, key(y) + 1, key(x));
  }

  /** When no two matches share a key, the order statistic fixes the page:
      a stretch at `offset` of the page's length is the page. */
  lemma PageDetermined<T(!new)>(s: seq<T>, p: T -> bool, key: T -> int, offset: nat, limit: nat, r: seq<T>)
    requires KeysDistinct(s, p, key)
    requires |r| == |FilteredPage(s, p, key, offset, limit)|
    requires PageAt(r, s, p, key, offset)
    ensures r == FilteredPage(s, p, key, offset, limit)
  {
    FilteredPageAt(s, p, key, offset, limit);
    SameRanksSame(s, p, key, offset, r, FilteredPage(s, p, key, offset, limit));
  }

  /** Two stretches at the same offset of the same length agree when no two
      matches share a key. */
  lemma SameRanksSame<T(!new)>(s: seq<T>, p: T -> bool, key: T -> int, offset: nat, r1: seq<T>, r2: seq<T>)
    requires KeysDistinct(s, p, key) && |r1| == |r2|
    requires PageAt(r1, s, p, key, offset) && PageAt(r2, s, p, key, offset)
    ensures r1 == r2
  {
    forall i | 0 <= i < |r1| ensures r1[i] == r2[i] {
      RanksFromAt(r1, s, p, key, offset, i, r1[i]);
      RanksFromAt(r2, s, p, key, offset, i, r2[i]);
      SharedRankSameKey(s, p, key, offset + i, r1[i], r2[i]);
      assert r1[i] in multiset(s) && r2[i] in multiset(s);
      var a :| 0 <= a < |s| && s[a] == r1[i];
      var b :| 0 <= b < |s| && s[b] == r2[i];
    }
  }

  /** Consecutive windows join into the window that spans both. */
  lemma WindowConcat<T>(t: seq<T>, offset: nat, l1: nat, l2: nat)
    ensures Window(t, offset, l1) + Window(t, offset + l1, l2) == Window(t, offset, l1 + l2)
  {
    if offset + l1 < |t| {
      var e := Min(offset + l1 + l2, |t|);
      assert Window(t, offset, l1) == t[offset..offset + l1];
      assert Window(t, offset + l1, l2) == t[offset + l1..e];
      assert Window(t, offset, l1 + l2) == t[offset..e];
      assert t[offset..e] == t[offset..offset + l1] + t[offset + l1..e];
    }
  }

  /** The page at `offset` of `l1` matches followed by the page right after
      it of `l2` matches is the page at `offset` of `l1 + l2` matches: paging
      through the matches visits each stretch once, in key order. */
  lemma FilteredPagesTile<T(!new)>(s: seq<T>, p: T -> bool, key: T -> int, offset: nat, l1: nat, l2: nat)
    ensures FilteredPage(s, p, key, offset, l1) + FilteredPage(s, p, key, offset + l1, l2) == FilteredPage(s, p, key, offset, l1 + l2)
  {
    WindowConcat(SortBy(Filter(s, p), key), offset, l1, l2);
  }

  /** A first page with room for every match holds the matches exactly,
      each as often as it occurs, in key order. */
  lemma FilteredPageAll<T(!new)>(s: seq<T>, p: T -> bool, key: T -> int, limit: nat)
    requires Count(s, p) <= limit
    ensures multiset(FilteredPage(s, p, key, 0, limit)) == multiset(Filter(s, p))
    ensures SortedBy(FilteredPage(s, p, key, 0, limit), key)
  {
    var t := SortBy(Filter(s, p), key);
    assert |t| == |multiset(t)| == |Filter(s, p)|;
    assert Window(t, 0, limit) == t[0..] == t;
  }

  /** With no offset and room for every match, the page holds every match. */
  lemma FilteredPageComplete<T(!new)>(s: seq<T>, p: T -> bool, key: T -> int, limit: nat, x: T)
    requires Count(s, p) <= limit && x in s && p(x)
    ensures x in FilteredPage(s, p, key, 0, limit)
  {
    var matches := Filter(s, p);
    FilterMembership(s, p, x);
    var sorted := SortBy(matches, key);
    assert multiset(sorted)[x] > 0;
    var i :| 0 <= i < |sorted| && sorted[i] == x;
    assert Window(sorted, 0, limit)[i] == x;
  }

  /** `.skip(offset).limit(limit)` over the matches in natural order (no
      `sort`). */
  function FilteredWindow<T(!new)>(s: seq<T>, p: T -> bool, offset: nat, limit: nat): (r: seq<T>)
    ensures |r| == Min(limit, Max(0, Count(s, p) - offset))
    ensures forall i :: 0 <= i < |r| ==> r[i] in s && p(r[i])
    ensures forall i :: 0 <= i < |r| ==> r[i] == Filter(s, p)[offset + i]
  {
    var matches := Filter(s, p);
    var page := Window(matches, offset, limit);
    forall i | 0 <= i < |page| ensures page[i] in matches {
      assert page[i] == matches[offset + i];
    }
    FilteredMembers(s, p, page);
    page
  }

  /** Consecutive natural-order pages join like consecutive windows. */
  lemma FilteredWindowsTile<T(!new)>(s: seq<T>, p: T -> bool, offset: nat, l1: nat, l2: nat)
    ensures FilteredWindow(s, p, offset, l1) + FilteredWindow(s, p, offset + l1, l2) == FilteredWindow(s, p, offset, l1 + l2)
  {
    WindowConcat(Filter(s, p), offset, l1, l2);
  }

  /** The store's `_id` order. */
  function ByIdOrder<T>(r: Keyed<T>): int {
    Rank(r.id)
  }

  /** A collection as the store keeps it: every `_id` a real identity and no
      two documents sharing one. */
  predicate IdsUnique<T>(s: seq<Keyed<T>>) {
    && (forall i :: 0 <= i < |s| ==> Canonical(s[i].id))
    && (forall i, j :: 0 <= i < j < |s| ==> s[i].id != s[j].id)
  }

  /** In a collection the store could hold, no two documents share a place
      in the `_id` order. */
  lemma IdOrderDistinct<T>(s: seq<Keyed<T>>, p: Keyed<T> -> bool)
    requires IdsUnique(s)
    ensures KeysDistinct(s, p, ByIdOrder)
  {
    forall i, j | 0 <= i < |s| && 0 <= j < |s| && p(s[i]) && p(s[j]) && ByIdOrder(s[i]) == ByIdOrder(s[j])
      ensures s[i] == s[j]
    {
      RankInjective(s[i].id, s[j].id);
    }
  }

  /** `{k: v for k, v in pairs}`: a later pair overwrites an earlier one. */
  function ToMap<K, V>(pairs: seq<(K, V)>): map<K, V>
    decreases |pairs|
  {
    if |pairs| == 0 then map[]
    else ToMap(pairs[..|pairs| - 1])[pairs[|pairs| - 1].0 := pairs[|pairs| - 1].1]
  }

  /** The dictionary has exactly the keys of the pairs. */
  lemma {:induction false} ToMapKeys<K, V>(pairs: seq<(K, V)>)
    ensures ToMap(pairs).Keys == KeysOf(pairs)
    decreases |pairs|
  {
    if |pairs| > 0 {
      ToMapKeys(pairs[..|pairs| - 1]);
      KeysOfSnoc(pairs);
    }
  }

  /** Each key maps to the value of the last pair carrying it. */
  lemma {:induction false} ToMapLast<K, V>(pairs: seq<(K, V)>)
    ensures forall i :: 0 <= i < |pairs| && LastWithKey(pairs, i) ==>
              pairs[i].0 in ToMap(pairs) && ToMap(pairs)[pairs[i].0] == pairs[i].1
    decreases |pairs|
  {
    if |pairs| > 0 {
      ToMapLast(pairs[..|pairs| - 1]);
      LastWithKeyInit(pairs);
    }
  }

  /** Every entry of the dictionary is one of the pairs. */
  lemma {:induction false} ToMapEntryFrom<K, V>(pairs: seq<(K, V)>, key: K)
    requires key in ToMap(pairs)
    ensures exists j :: 0 <= j < |pairs| && pairs[j] == (key, ToMap(pairs)[key])
    decreases |pairs|
  {
    var n := |pairs| - 1;
    if pairs[n].0 != key {
      ToMapEntryFrom(pairs[..n], key);
      var j :| 0 <= j < n && pairs[..n][j] == (key, ToMap(pairs[..n])[key]);
      assert pairs[j] == pairs[..n][j];
    }
  }

  /** A pair of the prefix that is last with its key in the whole sequence
      is last with it in the prefix too. */
  lemma LastWithKeyInit<K, V>(pairs: seq<(K, V)>)
    requires |pairs| > 0
    ensures forall i :: 0 <= i < |pairs| - 1 && LastWithKey(pairs, i) ==>
              pairs[..|pairs| - 1][i] == pairs[i] && LastWithKey(pairs[..|pairs| - 1], i)
  {
    var init := pairs[..|pairs| - 1];
    forall i | 0 <= i < |init| && LastWithKey(pairs, i) ensures init[i] == pairs[i] && LastWithKey(init, i) {
      forall j | i < j < |init| ensures init[j].0 != init[i].0 {
        assert init[j] == pairs[j];
      }
    }
  }

  /** The keys of the pairs. */
  function KeysOf<K, V>(pairs: seq<(K, V)>): set<K> {
    set i | 0 <= i < |pairs| :: pairs[i].0
  }

  lemma KeysOfSnoc<K, V>(pairs: seq<(K, V)>)
    requires |pairs| > 0
    ensures KeysOf(pairs) == KeysOf(pairs[..|pairs| - 1]) + {pairs[|pairs| - 1].0}
  {
    var init := pairs[..|pairs| - 1];
    forall k | k in KeysOf(pairs) ensures k in KeysOf(init) + {pairs[|pairs| - 1].0} {
      var i :| 0 <= i < |pairs| && pairs[i].0 == k;
      if i < |init| { assert init[i] == pairs[i]; }
    }
    forall k | k in KeysOf(init) ensures k in KeysOf(pairs) {
      var i :| 0 <= i < |init| && init[i].0 == k;
      assert pairs[i] == init[i];
    }
  }

  /** Pair `i` is the last one carrying its key. */
  predicate LastWithKey<K(==), V>(pairs: seq<(K, V)>, i: int)
    requires 0 <= i < |pairs|
  {
    forall j :: i < j < |pairs| ==> pairs[j].0 != pairs[i].0
  }
}
