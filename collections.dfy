/** The list operations the aggregation pipelines are built from: the
    documents of a collection in `_id` order, `$match` as a filter, `$sort` as
    a sort by a total preorder, and counting. */
module Collections {

  // ---------------------------------------------------------------- _id order

  /** The ids of a collection in ascending order, which for ObjectIds is the
      order of creation. */
  function Keys(s: set<nat>): (r: seq<nat>)
    ensures |r| == |s|
    ensures forall x :: x in r <==> x in s
    ensures forall i, j :: 0 <= i < j < |r| ==> r[i] < r[j]
    decreases |s|
  {
    if s == {} then []
    else
      var m := Min(s);
      var rest := s - {m};
      assert |rest| == |s| - 1;
      var t := Keys(rest);
      assert forall x :: x in t ==> x in s && x != m;
      ConsAscending(m, t);
      assert forall x :: x in [m] + t <==> x == m || x in t;
      [m] + t
  }

  /** A smaller element in front of an ascending list keeps it ascending. */
  lemma ConsAscending(m: nat, t: seq<nat>)
    requires forall i, j :: 0 <= i < j < |t| ==> t[i] < t[j]
    requires forall x :: x in t ==> m < x
    ensures forall i, j :: 0 <= i < j < |[m] + t| ==> ([m] + t)[i] < ([m] + t)[j]
  {
    var r := [m] + t;
    forall i, j | 0 <= i < j < |r| ensures r[i] < r[j] {
      assert r[j] == t[j - 1];
      if i > 0 {
        assert r[i] == t[i - 1];
      } else {
        assert t[j - 1] in t;
      }
    }
  }

  /** The smallest element of a non-empty set. */
  function Min(s: set<nat>): (m: nat)
    requires s != {}
    ensures m in s && forall x :: x in s ==> m <= x
  {
    MinExists(s);
    var m :| m in s && forall x :: x in s ==> m <= x;
    m
  }

  lemma MinExists(s: set<nat>)
    requires s != {}
    ensures exists m :: m in s && forall x :: x in s ==> m <= x
  {
    var y :| y in s;
    MinBelow(s, y);
  }

  /** Descending from any element reaches a least one. */
  lemma {:induction false} MinBelow(s: set<nat>, y: nat)
    requires y in s
    ensures exists m :: m in s && forall x :: x in s ==> m <= x
    decreases y
  {
    if !forall x :: x in s ==> y <= x {
      var z :| z in s && z < y;
      MinBelow(s, z);
    }
  }

  /** The documents of a collection, as (id, document) pairs in `_id` order. */
  function Records<V>(m: map<nat, V>): (r: seq<(nat, V)>)
    ensures |r| == |m|
    ensures forall i :: 0 <= i < |r| ==> r[i].0 in m && m[r[i].0] == r[i].1
    ensures forall k :: k in m ==> (k, m[k]) in r
    ensures forall i, j :: 0 <= i < j < |r| ==> r[i].0 < r[j].0
  {
    RecordsOf(m, Keys(m.Keys))
  }

  /** The documents with the listed ids, in the order of the list. */
  function RecordsOf<V>(m: map<nat, V>, ks: seq<nat>): (r: seq<(nat, V)>)
    requires forall k :: k in ks ==> k in m
    ensures |r| == |ks|
    ensures forall i :: 0 <= i < |r| ==> r[i].0 == ks[i] && m[r[i].0] == r[i].1
    ensures forall k :: k in ks ==> (k, m[k]) in r
  {
    if ks == [] then []
    else
      var t := RecordsOf(m, ks[1..]);
      assert forall k :: k in ks ==> k == ks[0] || k in ks[1..];
      [(ks[0], m[ks[0]])] + t
  }

  // ---------------------------------------------------------------- $match

  /** The elements of `s` that satisfy `p`, in their order. */
  function Filter<T(!new)>(s: seq<T>, p: T -> bool): (r: seq<T>)
    ensures |r| <= |s|
    ensures forall x :: x in r <==> x in s && p(x)
    ensures multiset(r) <= multiset(s)
  {
    if s == [] then []
    else if p(s[0]) then
      assert s == [s[0]] + s[1..];
      [s[0]] + Filter(s[1..], p)
    else
      assert multiset(s) == multiset{s[0]} + multiset(s[1..]) by {
        assert s == [s[0]] + s[1..];
      }
      Filter(s[1..], p)
  }

  /** Filtering by `p` and then by a weaker `q` is filtering by `p`. */
  lemma {:induction false} FilterRedundant<T(!new)>(s: seq<T>, p: T -> bool, q: T -> bool)
    requires forall x :: p(x) ==> q(x)
    ensures Filter(Filter(s, p), q) == Filter(s, p)
  {
    if s != [] {
      FilterRedundant(s[1..], p, q);
    }
  }

  /** A filter that every element passes keeps the sequence whole. */
  lemma {:induction false} FilterKeepsAll<T(!new)>(s: seq<T>, p: T -> bool)
    requires forall i :: 0 <= i < |s| ==> p(s[i])
    ensures Filter(s, p) == s
  {
    if s != [] {
      FilterKeepsAll(s[1..], p);
    }
  }

  /** `countDocuments`: how many elements satisfy `p`. */
  function Count<T>(s: seq<T>, p: T -> bool): (n: nat)
    ensures n <= |s|
    ensures n == 0 <==> forall i :: 0 <= i < |s| ==> !p(s[i])
  {
    if s == [] then 0
    else (if p(s[0]) then 1 else 0) + Count(s[1..], p)
  }

  /** Counting is the length of the filter. */
  lemma {:induction false} CountIsFilterLength<T(!new)>(s: seq<T>, p: T -> bool)
    ensures Count(s, p) == |Filter(s, p)|
  {
    if s != [] {
      CountIsFilterLength(s[1..], p);
    }
  }

  // ---------------------------------------------------------------- $sort

  ghost predicate Total<T(!new)>(le: (T, T) -> bool) {
    forall a, b :: le(a, b) || le(b, a)
  }

  ghost predicate Transitive<T(!new)>(le: (T, T) -> bool) {
    forall a, b, c :: le(a, b) && le(b, c) ==> le(a, c)
  }

  predicate SortedBy<T>(s: seq<T>, le: (T, T) -> bool) {
    forall i, j :: 0 <= i < j < |s| ==> le(s[i], s[j])
  }

  /** `x` placed after the elements that must precede it. */
  function Insert<T(!new)>(x: T, s: seq<T>, le: (T, T) -> bool): (r: seq<T>)
    requires Total(le) && Transitive(le)
    requires SortedBy(s, le)
    ensures SortedBy(r, le)
    ensures multiset(r) == multiset(s) + multiset{x}
  {
    if s == [] then [x]
    else if le(x, s[0]) then
      assert forall j :: 0 <= j < |s| ==> le(s[0], s[j]) by {
        forall j | 0 < j < |s| ensures le(s[0], s[j]) {
        }
      }
      [x] + s
    else
      assert s == [s[0]] + s[1..];
      var rest := Insert(x, s[1..], le);
      assert forall y :: y in rest ==> le(s[0], y) by {
        forall y | y in rest ensures le(s[0], y) {
          assert y in multiset(rest);
          if y != x {
            assert y in multiset(s[1..]);
          }
        }
      }
      [s[0]] + rest
  }

  /** A stable insertion sort: the result is ordered by `le` and holds exactly
      the elements of `s`. */
  function SortBy<T(!new)>(s: seq<T>, le: (T, T) -> bool): (r: seq<T>)
    requires Total(le) && Transitive(le)
    ensures SortedBy(r, le)
    ensures multiset(r) == multiset(s)
    ensures |r| == |s|
  {
    if s == [] then []
    else
      assert s == [s[0]] + s[1..];
      Insert(s[0], SortBy(s[1..], le), le)
  }

  /** `$match` by `p` then `$sort` by `le` on the documents of a
      collection: exactly the matching documents, in order. */
  function SortedMatches<V(!new)>(m: map<nat, V>, p: ((nat, V)) -> bool, le: ((nat, V), (nat, V)) -> bool)
    : (r: seq<(nat, V)>)
    requires Total(le) && Transitive(le)
    ensures SortedBy(r, le)
    ensures forall rec :: rec in r <==> rec.0 in m && m[rec.0] == rec.1 && p(rec)
    ensures |r| == Count(Records(m), p)
  {
    var matched := Filter(Records(m), p);
    CountIsFilterLength(Records(m), p);
    var r := SortBy(matched, le);
    assert forall rec :: rec in r <==> rec in matched by {
      forall rec ensures rec in r <==> rec in matched {
        assert rec in r <==> rec in multiset(r);
        assert rec in matched <==> rec in multiset(matched);
      }
    }
    r
  }

  /** Every record of a query is one of the collection's, matching it. */
  lemma MatchedAt<V>(m: map<nat, V>, p: ((nat, V)) -> bool, recs: seq<(nat, V)>)
    requires forall rec :: rec in recs ==> rec.0 in m && m[rec.0] == rec.1 && p(rec)
    ensures forall i :: 0 <= i < |recs| ==> recs[i].0 in m && m[recs[i].0] == recs[i].1 && p(recs[i])
  {
    forall i | 0 <= i < |recs| ensures recs[i].0 in m && m[recs[i].0] == recs[i].1 && p(recs[i]) {
      assert recs[i] in recs;
    }
  }

  /** Filtering keeps an order: the kept elements are still sorted. */
  lemma {:induction false} FilterKeepsSorted<T(!new)>(s: seq<T>, p: T -> bool, le: (T, T) -> bool)
    requires SortedBy(s, le)
    ensures SortedBy(Filter(s, p), le)
  {
    if s != [] {
      FilterKeepsSorted(s[1..], p, le);
      var rest := Filter(s[1..], p);
      if p(s[0]) {
        forall j | 0 <= j < |rest| ensures le(s[0], rest[j]) {
          assert rest[j] in s[1..];
          var k :| 0 <= k < |s[1..]| && s[1..][k] == rest[j];
          assert s[k + 1] == rest[j];
        }
        var r := [s[0]] + rest;
        forall i, j | 0 <= i < j < |r| ensures le(r[i], r[j]) {
          if i > 0 {
            assert r[i] == rest[i - 1] && r[j] == rest[j - 1];
          }
        }
      }
    }
  }

  /** The first `n` elements (`.slice(0, n)`). */
  function Take<T>(s: seq<T>, n: nat): (r: seq<T>)
    ensures |r| == if n < |s| then n else |s|
    ensures r == s[..|r|]
  {
    if n < |s| then s[..n] else s
  }

  /** `.reverse()`. */
  function Reversed<T>(s: seq<T>): (r: seq<T>)
    ensures |r| == |s|
    ensures forall i :: 0 <= i < |s| ==> r[i] == s[|s| - 1 - i]
  {
    if s == [] then [] else Reversed(s[1..]) + [s[0]]
  }

  /** Reversing keeps every element. */
  lemma InReversed<T>(s: seq<T>, x: T)
    requires x in s
    ensures x in Reversed(s)
  {
    var k :| 0 <= k < |s| && s[k] == x;
    assert Reversed(s)[|s| - 1 - k] == x;
  }

  /** Counting is pointwise: two lists whose elements agree position by
      position on the two predicates have the same count. */
  lemma {:induction false} CountPointwise<T, U>(s: seq<T>, t: seq<U>, p: T -> bool, q: U -> bool)
    requires |s| == |t|
    requires forall i :: 0 <= i < |s| ==> p(s[i]) == q(t[i])
    ensures Count(s, p) == Count(t, q)
  {
    if s != [] {
      CountPointwise(s[1..], t[1..], p, q);
    }
  }

  /** Counting by a predicate that splits into two exclusive cases is the
      sum of the two counts. */
  lemma {:induction false} CountSplit<T>(s: seq<T>, p: T -> bool, q: T -> bool, r: T -> bool)
    requires forall x :: p(x) == (q(x) || r(x))
    requires forall x :: !(q(x) && r(x))
    ensures Count(s, p) == Count(s, q) + Count(s, r)
  {
    if s != [] {
      CountSplit(s[1..], p, q, r);
    }
  }

  /** Two maps with the same ids list their records with the ids in the same
      positions. */
  lemma RecordsSameKeys<V>(a: map<nat, V>, b: map<nat, V>)
    requires a.Keys == b.Keys
    ensures |Records(a)| == |Records(b)|
    ensures forall i :: 0 <= i < |Records(a)| ==> Records(a)[i].0 == Records(b)[i].0
  {
  }

  /** No element occurs twice. */
  ghost predicate Distinct<T>(s: seq<T>) {
    forall i, j :: 0 <= i < j < |s| ==> s[i] != s[j]
  }

  lemma {:induction false} DistinctOnce<T>(s: seq<T>, x: T)
    requires Distinct(s)
    ensures multiset(s)[x] <= 1
  {
    if s != [] {
      assert s == [s[0]] + s[1..];
      assert Distinct(s[1..]) by {
        forall i, j | 0 <= i < j < |s[1..]| ensures s[1..][i] != s[1..][j] {
          assert s[1..][i] == s[i + 1] && s[1..][j] == s[j + 1];
        }
      }
      DistinctOnce(s[1..], x);
      if x == s[0] {
        assert x !in s[1..] by {
          forall k | 0 <= k < |s[1..]| ensures s[1..][k] != x {
            assert s[1..][k] == s[k + 1];
          }
        }
      }
    }
  }

  lemma TwiceCounted<T>(s: seq<T>, i: nat, j: nat)
    requires i < j < |s| && s[i] == s[j]
    ensures multiset(s)[s[i]] >= 2
  {
    assert s == s[..j] + s[j..];
    assert s[i] in s[..j];
    assert s[j] == s[j..][0];
  }

  /** A list whose elements all come from a list without repetitions, each
      no more often, has none either: sorting, filtering and cutting keep
      elements distinct. */
  lemma FewerKeepsDistinct<T>(s: seq<T>, t: seq<T>)
    requires Distinct(s) && multiset(t) <= multiset(s)
    ensures Distinct(t)
  {
    forall i, j | 0 <= i < j < |t| ensures t[i] != t[j] {
      if t[i] == t[j] {
        TwiceCounted(t, i, j);
        DistinctOnce(s, t[i]);
        assert false;
      }
    }
  }

  // ---------------------------------------------------------- cardinality

  /** A list without repeats has as many elements as its set. */
  lemma {:induction false} DistinctCard<T>(s: seq<T>)
    requires Distinct(s)
    ensures |set x | x in s| == |s|
  {
    if s != [] {
      var rest := s[1..];
      assert Distinct(rest) by {
        forall i, j | 0 <= i < j < |rest| ensures rest[i] != rest[j] {
          assert rest[i] == s[i + 1] && rest[j] == s[j + 1];
        }
      }
      DistinctCard(rest);
      assert s[0] !in rest by {
        forall j | 0 <= j < |rest| ensures rest[j] != s[0] {
          assert rest[j] == s[j + 1];
        }
      }
      assert (set x | x in s) == (set x | x in rest) + {s[0]};
    }
  }

  /** The ids of the records that satisfy `p`. */
  function IdsWhere<V>(recs: seq<(nat, V)>, p: ((nat, V)) -> bool): (r: set<nat>)
    ensures forall rec :: rec in recs && p(rec) ==> rec.0 in r
  {
    if recs == [] then {}
    else
      assert forall rec :: rec in recs ==> rec == recs[0] || rec in recs[1..];
      (if p(recs[0]) then {recs[0].0} else {}) + IdsWhere(recs[1..], p)
  }

  /** Every id collected from the records of `m` names a document of `m`
      that satisfies `p`. */
  lemma {:induction false} IdsWhereFrom<V>(recs: seq<(nat, V)>, p: ((nat, V)) -> bool, m: map<nat, V>)
    requires forall i :: 0 <= i < |recs| ==> recs[i].0 in m && m[recs[i].0] == recs[i].1
    ensures forall x :: x in IdsWhere(recs, p) ==> x in m && p((x, m[x]))
  {
    if recs != [] {
      IdsWhereFrom(recs[1..], p, m);
    }
  }

  /** With ascending ids, counting the records that satisfy `p` counts their
      ids. */
  lemma {:induction false} CountIds<V>(recs: seq<(nat, V)>, p: ((nat, V)) -> bool)
    requires forall i, j :: 0 <= i < j < |recs| ==> recs[i].0 < recs[j].0
    ensures Count(recs, p) == |IdsWhere(recs, p)|
    ensures forall x :: x in IdsWhere(recs, p) ==> recs[0].0 <= x
  {
    if recs != [] {
      var rest := recs[1..];
      CountIds(rest, p);
      if rest != [] {
        assert recs[0].0 < rest[0].0;
      }
      assert recs[0].0 !in IdsWhere(rest, p);
    }
  }

  /** Counting the documents of `m` that satisfy `p` counts any set holding
      exactly their ids. */
  lemma CountIsCard<V>(m: map<nat, V>, p: ((nat, V)) -> bool, ids: set<nat>)
    requires forall k :: k in ids <==> k in m && p((k, m[k]))
    ensures Count(Records(m), p) == |ids|
  {
    var recs := Records(m);
    CountIds(recs, p);
    SameIds(m, p, recs, ids);
  }

  lemma SameIds<V>(m: map<nat, V>, p: ((nat, V)) -> bool, recs: seq<(nat, V)>, ids: set<nat>)
    requires forall i :: 0 <= i < |recs| ==> recs[i].0 in m && m[recs[i].0] == recs[i].1
    requires forall k :: k in m ==> (k, m[k]) in recs
    requires forall k :: k in ids <==> k in m && p((k, m[k]))
    ensures IdsWhere(recs, p) == ids
  {
    IdsWhereFrom(recs, p, m);
    forall x | x in ids ensures x in IdsWhere(recs, p) {
      assert (x, m[x]) in recs;
    }
  }
}
