/** `.sort({ createdAt: sortBy })` of the user list: the documents ordered by
    creation time, oldest first for "asc" and newest first for "desc".
    Documents created at the same time keep their stored order. */
module CreatedAtOrder {
  import opened Records

  datatype SortOrder = Asc | Desc

  /** `a` may come before `b` in the requested order. */
  predicate InOrder(order: SortOrder, a: User, b: User) {
    match order
    case Asc => a.createdAt <= b.createdAt
    case Desc => a.createdAt >= b.createdAt
  }

  predicate Sorted(order: SortOrder, s: seq<User>) {
    forall i, j :: 0 <= i < j < |s| ==> InOrder(order, s[i], s[j])
  }

  /** `x` placed into the sorted `s` in front of the first element it may
      precede. */
  function Insert(order: SortOrder, x: User, s: seq<User>): (r: seq<User>)
    requires Sorted(order, s)
    ensures Sorted(order, r)
    ensures multiset(r) == multiset(s) + multiset{x}
    ensures |r| == |s| + 1
  {
    if s == [] then [x]
    else if InOrder(order, x, s[0]) then
      [x] + s
    else
      var t := Insert(order, x, s[1..]);
      assert s == [s[0]] + s[1..];
      assert forall k :: 0 <= k < |t| ==> InOrder(order, s[0], t[k]) by {
        forall k | 0 <= k < |t| ensures InOrder(order, s[0], t[k]) {
          assert t[k] in multiset(s[1..]) + multiset{x};
          if t[k] != x {
            var j :| 0 <= j < |s[1..]| && s[1..][j] == t[k];
            assert s[1 + j] == t[k];
          }
        }
      }
      SortedCons(order, s[0], t);
      [s[0]] + t
  }

  lemma SortedCons(order: SortOrder, h: User, t: seq<User>)
    requires Sorted(order, t)
    requires forall k :: 0 <= k < |t| ==> InOrder(order, h, t[k])
    ensures Sorted(order, [h] + t)
  {
    var r := [h] + t;
    forall i, j | 0 <= i < j < |r| ensures InOrder(order, r[i], r[j]) {
      assert r[j] == t[j - 1];
      if i > 0 {
        assert r[i] == t[i - 1];
      }
    }
  }

  /** The users of `s` ordered by creation time (insertion sort). */
  function SortByCreatedAt(order: SortOrder, s: seq<User>): (r: seq<User>)
    ensures Sorted(order, r)
    ensures multiset(r) == multiset(s)
    ensures |r| == |s|
  {
    if s == [] then []
    else
      assert s == [s[0]] + s[1..];
      Insert(order, s[0], SortByCreatedAt(order, s[1..]))
  }
  /** No two different users of `s` were created at the same time. */
  predicate DistinctTimes(s: seq<User>) {
    forall u, v :: u in s && v in s && u.createdAt == v.createdAt ==> u == v
  }

  /** The tail of a sorted sequence is sorted. */
  lemma SortedTail(order: SortOrder, s: seq<User>)
    requires Sorted(order, s) && s != []
    ensures Sorted(order, s[1..])
  {
    forall x, y | 0 <= x < y < |s[1..]| ensures InOrder(order, s[1..][x], s[1..][y]) {
      assert s[1..][x] == s[x + 1] && s[1..][y] == s[y + 1];
    }
  }

  /** Without ties, two sorted arrangements of the same users start with
      the same user: the one created first (or last, for `Desc`). */
  lemma SameHead(order: SortOrder, a: seq<User>, b: seq<User>)
    requires Sorted(order, a) && Sorted(order, b)
    requires multiset(a) == multiset(b)
    requires DistinctTimes(a) && a != []
    ensures b != [] && a[0] == b[0]
  {
    assert a[0] in multiset(b);
    assert b[0] in multiset(a);
    var j :| 0 <= j < |a| && a[j] == b[0];
    var i :| 0 <= i < |b| && b[i] == a[0];
    if j > 0 { assert InOrder(order, a[0], a[j]); }
    if i > 0 { assert InOrder(order, b[0], b[i]); }
    assert a[0].createdAt == b[0].createdAt;
    assert a[j] in a;
  }

  /** Removing one and the same first user from two arrangements of the
      same users leaves arrangements of the same users. */
  lemma SameTail(a: seq<User>, b: seq<User>)
    requires a != [] && b != [] && a[0] == b[0]
    requires multiset(a) == multiset(b)
    ensures multiset(a[1..]) == multiset(b[1..])
  {
    assert a == [a[0]] + a[1..] && b == [b[0]] + b[1..];
    assert multiset(a[1..]) == multiset(a) - multiset{a[0]};
    assert multiset(b[1..]) == multiset(b) - multiset{b[0]};
  }

  lemma DistinctTimesTail(s: seq<User>)
    requires DistinctTimes(s) && s != []
    ensures DistinctTimes(s[1..])
  {
    forall u, v | u in s[1..] && v in s[1..] && u.createdAt == v.createdAt ensures u == v {
      assert u in s && v in s;
    }
  }

  /** Without ties there is one order only: two sorted arrangements of the
      same users are the same sequence. */
  lemma {:induction false} SortedUnique(order: SortOrder, a: seq<User>, b: seq<User>)
    requires Sorted(order, a) && Sorted(order, b)
    requires multiset(a) == multiset(b)
    requires DistinctTimes(a)
    ensures a == b
  {
    if a == [] {
      assert |b| == |multiset(b)| == 0;
    } else {
      SameHead(order, a, b);
      SameTail(a, b);
      SortedTail(order, a);
      SortedTail(order, b);
      DistinctTimesTail(a);
      SortedUnique(order, a[1..], b[1..]);
    }
  }
}
