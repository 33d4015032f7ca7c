/** The read-only user actions: the paginated, searchable user list
    (`fetchUsers`), the replies others wrote to a user's threads
    (`getActivity`) and a user with their threads and those threads'
    replies (`fetchUserPosts`). Each is a function of the collections'
    contents. */
module UserQueries {
  import opened Wrappers
  import opened Records
  import opened CreatedAtOrder
  import JsStrings
  import Seqs
  import UserStore

  // ---------------------------------------------------------------------
  // fetchUsers

  const DefaultPageNumber := 1
  const DefaultPageSize := 20
  const DefaultSearchString := ""
  const DefaultSortBy := Desc

  /** The arguments of `fetchUsers`. */
  datatype UsersQuery = UsersQuery(
    userId: string,
    pageNumber: int,
    pageSize: int,
    searchString: string,
    sortBy: SortOrder)

  /** One page of the user list and whether more users follow it. */
  datatype UsersPage = UsersPage(users: seq<User>, isNext: bool)

  /** `fetchUsers({ userId })`, every other argument left at its default. */
  function DefaultQuery(userId: string): UsersQuery {
    UsersQuery(userId, DefaultPageNumber, DefaultPageSize, DefaultSearchString, DefaultSortBy)
  }

  /** The paging arguments the model accepts. */
  predicate WellFormed(q: UsersQuery) {
    q.pageNumber >= 1 && q.pageSize >= 1
  }

  /** The number of users on `pages` full pages of `size` users, counted
      page by page. */
  function Offset(pages: nat, size: nat): nat {
    if pages == 0 then 0 else Offset(pages - 1, size) + size
  }

  lemma {:induction false} OffsetIsProduct(pages: nat, size: nat)
    ensures Offset(pages, size) == pages * size
  {
    if pages > 0 {
      OffsetIsProduct(pages - 1, size);
    }
  }

  /** `(pageNumber - 1) * pageSize`. */
  function SkipAmount(q: UsersQuery): nat
    requires WellFormed(q)
  {
    Offset(q.pageNumber - 1, q.pageSize)
  }

  /** The query document: never the querying user, and, when the search text
      is not blank after trimming, a match on the username or on the name. */
  predicate InFilter(userId: string, searchString: string, u: User) {
    && u.id != userId
    && (JsStrings.Trim(searchString) != "" ==>
          JsStrings.Matches(searchString, u.username) || JsStrings.Matches(searchString, u.name))
  }

  /** The users the query document selects, in stored order. */
  function Filtered(users: seq<User>, userId: string, searchString: string): seq<User> {
    Seqs.Filter(users, (u: User) => InFilter(userId, searchString, u))
  }

  /** The users `q` selects; their number is what `countDocuments` reports. */
  function Selected(users: seq<User>, q: UsersQuery): seq<User> {
    Filtered(users, q.userId, q.searchString)
  }

  /** The selected users in the requested creation-time order. */
  function Ranked(users: seq<User>, q: UsersQuery): seq<User> {
    SortByCreatedAt(q.sortBy, Selected(users, q))
  }

  /** `.skip(skip).limit(size)` on the ordered list. */
  function Window(s: seq<User>, skip: nat, size: nat): (r: seq<User>)
    ensures |r| == if skip >= |s| then 0 else Min(size, |s| - skip)
    ensures forall k :: 0 <= k < |r| ==> r[k] == s[skip + k]
  {
    if skip >= |s| then [] else s[skip..Min(skip + size, |s|)]
  }

  /** A window holds elements of the list, in the list's order. */
  lemma WindowOf(order: SortOrder, s: seq<User>, skip: nat, size: nat)
    ensures forall u :: u in Window(s, skip, size) ==> u in s
    ensures Sorted(order, s) ==> Sorted(order, Window(s, skip, size))
  {
    var w := Window(s, skip, size);
    forall u | u in w ensures u in s {
      var k :| 0 <= k < |w| && w[k] == u;
      assert s[skip + k] == u;
    }
    if Sorted(order, s) {
      forall i, j | 0 <= i < j < |w| ensures InOrder(order, w[i], w[j]) {
        assert w[i] == s[skip + i] && w[j] == s[skip + j];
      }
    }
  }

  /** Every ordered user is a stored user the query document selects. */
  lemma RankedMembers(users: seq<User>, q: UsersQuery)
    ensures |Ranked(users, q)| == |Selected(users, q)|
    ensures Sorted(q.sortBy, Ranked(users, q))
    ensures forall u :: u in Ranked(users, q) ==> u in users && InFilter(q.userId, q.searchString, u)
  {
    forall u | u in Ranked(users, q) ensures u in users && InFilter(q.userId, q.searchString, u) {
      assert u in multiset(Ranked(users, q));
    }
  }

  /** `fetchUsers`: sort, skip `SkipAmount(q)`, limit to `pageSize`, and
      `isNext` when the total count exceeds the skipped users plus this page. */
  function FetchUsers(users: seq<User>, q: UsersQuery): (r: UsersPage)
    requires WellFormed(q)
    ensures |r.users| <= q.pageSize
    ensures |r.users| == if SkipAmount(q) >= |Selected(users, q)| then 0
                         else Min(q.pageSize, |Selected(users, q)| - SkipAmount(q))
    ensures forall k :: 0 <= k < |r.users| ==> r.users[k] == Ranked(users, q)[SkipAmount(q) + k]
    ensures forall u :: u in r.users ==> u in users && u.id != q.userId
    ensures forall u :: u in r.users && !JsStrings.IsBlank(q.searchString) ==>
              JsStrings.Matches(q.searchString, u.username) || JsStrings.Matches(q.searchString, u.name)
    ensures Sorted(q.sortBy, r.users)
    ensures r.isNext <==> SkipAmount(q) + q.pageSize < |Selected(users, q)|
  {
    RankedMembers(users, q);
    JsStrings.TrimEmptyIffBlank(q.searchString);
    var skip := SkipAmount(q);
    var page := Window(Ranked(users, q), skip, q.pageSize);
    WindowOf(q.sortBy, Ranked(users, q), skip, q.pageSize);
    var totalUsers := |Selected(users, q)|;
    UsersPage(page, totalUsers > skip + |page|)
  }

  function Min(a: int, b: int): int {
    if a <= b then a else b
  }

  /** The querying user is never listed, whatever the other arguments. */
  lemma FetchUsersExcludesCaller(users: seq<User>, q: UsersQuery)
    requires WellFormed(q)
    ensures forall k :: 0 <= k < |FetchUsers(users, q).users| ==> FetchUsers(users, q).users[k].id != q.userId
  {
    var r := FetchUsers(users, q);
    forall k | 0 <= k < |r.users| ensures r.users[k].id != q.userId {
      assert r.users[k] in r.users;
    }
  }

  /** `isNext` is exactly "the following page is not empty". */
  lemma IsNextIffNextPageNonEmpty(users: seq<User>, q: UsersQuery)
    requires WellFormed(q)
    ensures FetchUsers(users, q).isNext <==> FetchUsers(users, q.(pageNumber := q.pageNumber + 1)).users != []
  {
    var next := q.(pageNumber := q.pageNumber + 1);
    assert SkipAmount(next) == SkipAmount(q) + q.pageSize;
    assert Selected(users, next) == Selected(users, q);
  }

  /** On the exact last page, and on any page past the end, `isNext` is
      false; past the end the page is empty. */
  lemma LastPageHasNoNext(users: seq<User>, q: UsersQuery)
    requires WellFormed(q)
    requires |Selected(users, q)| <= SkipAmount(q) + q.pageSize
    ensures !FetchUsers(users, q).isNext
    ensures SkipAmount(q) >= |Selected(users, q)| ==> FetchUsers(users, q).users == []
  {
  }

  /** A search string that trims to nothing selects the same users, in the
      same pages, as no search at all: only the querying user is left out. */
  lemma BlankSearchIsNoSearch(users: seq<User>, q: UsersQuery)
    requires WellFormed(q)
    requires JsStrings.IsBlank(q.searchString)
    ensures Selected(users, q) == Seqs.Filter(users, (u: User) => u.id != q.userId)
    ensures Selected(users, q) == Selected(users, q.(searchString := ""))
    ensures FetchUsers(users, q) == FetchUsers(users, q.(searchString := ""))
  {
    var q0 := q.(searchString := "");
    BlankSearchSelectsOthers(users, q.userId, q.searchString);
    BlankSearchSelectsOthers(users, q.userId, "");
    assert Ranked(users, q) == Ranked(users, q0);
    FetchUsersIsWindow(users, q);
    FetchUsersIsWindow(users, q0);
  }

  /** A blank search string leaves only the exclusion of the caller. */
  lemma BlankSearchSelectsOthers(users: seq<User>, userId: string, searchString: string)
    requires JsStrings.IsBlank(searchString)
    ensures Filtered(users, userId, searchString) == Seqs.Filter(users, (u: User) => u.id != userId)
  {
    JsStrings.TrimEmptyIffBlank(searchString);
    Seqs.FilterCongruent(users, (u: User) => InFilter(userId, searchString, u), (u: User) => u.id != userId);
  }


  /** The users of pages 1 to `n`, page after page. */
  function Concat(pages: nat -> seq<User>, n: nat): seq<User> {
    if n == 0 then [] else Concat(pages, n - 1) + pages(n)
  }

  /** `s[lo..hi]`, both ends cut off at the end of `s`. */
  function Slice(s: seq<User>, lo: nat, hi: nat): seq<User> {
    if lo <= hi then s[Min(lo, |s|)..Min(hi, |s|)] else []
  }

  /** Consecutive slices of width `size`, read in turn, give a prefix. */
  lemma {:induction false} SlicesCover(pages: nat -> seq<User>, s: seq<User>, size: nat, n: nat)
    requires forall k: nat :: 1 <= k <= n ==> pages(k) == Slice(s, Offset(k - 1, size), Offset(k, size))
    ensures Concat(pages, n) == s[..Min(Offset(n, size), |s|)]
  {
    if n > 0 {
      SlicesCover(pages, s, size, n - 1);
      var a, b := Offset(n - 1, size), Offset(n, size);
      assert pages(n) == s[Min(a, |s|)..Min(b, |s|)];
      assert s[..Min(a, |s|)] + s[Min(a, |s|)..Min(b, |s|)] == s[..Min(b, |s|)];
    }
  }

  /** The pages of `fetchUsers` by page number. */
  function PageUsers(users: seq<User>, q: UsersQuery): nat -> seq<User>
    requires WellFormed(q)
  {
    (k: nat) => if k >= 1 then FetchUsers(users, q.(pageNumber := k)).users else []
  }

  /** A page is the window of the ordered list that starts after the
      skipped users. */
  lemma FetchUsersIsWindow(users: seq<User>, q: UsersQuery)
    requires WellFormed(q)
    ensures FetchUsers(users, q).users == Window(Ranked(users, q), SkipAmount(q), q.pageSize)
  {
    var page, window := FetchUsers(users, q).users, Window(Ranked(users, q), SkipAmount(q), q.pageSize);
    assert |page| == |window|;
    assert forall k :: 0 <= k < |page| ==> page[k] == window[k];
  }

  lemma WindowIsSlice(s: seq<User>, skip: nat, size: nat)
    ensures Window(s, skip, size) == Slice(s, skip, skip + size)
  {
  }

  /** Page `n` is the slice of the ordered list from `(n - 1) * pageSize` to
      `n * pageSize`, both cut off at its end. */
  lemma PageIsSlice(users: seq<User>, q: UsersQuery, n: nat)
    requires WellFormed(q) && n >= 1
    ensures FetchUsers(users, q.(pageNumber := n)).users == Slice(Ranked(users, q), Offset(n - 1, q.pageSize), Offset(n, q.pageSize))
  {
    var qn, ranked, size := q.(pageNumber := n), Ranked(users, q), q.pageSize;
    var lo := Offset(n - 1, size);
    assert Selected(users, qn) == Selected(users, q);
    assert Ranked(users, qn) == ranked;
    assert SkipAmount(qn) == lo;
    assert Offset(n, size) == lo + size;
    FetchUsersIsWindow(users, qn);
    WindowIsSlice(ranked, lo, size);
  }

  /** Paging neither skips nor repeats a user: pages 1 to `n`, read in turn,
      are the first `Offset(n, pageSize)` users of the ordered list, that is
      the first `n * pageSize` (`OffsetIsProduct`). */
  lemma PagesCoverRanked(users: seq<User>, q: UsersQuery, n: nat)
    requires WellFormed(q)
    ensures Concat(PageUsers(users, q), n) == Ranked(users, q)[..Min(Offset(n, q.pageSize), |Ranked(users, q)|)]
  {
    var pages, ranked, size := PageUsers(users, q), Ranked(users, q), q.pageSize;
    assert forall k: nat :: 1 <= k <= n ==> pages(k) == Slice(ranked, Offset(k - 1, size), Offset(k, size)) by {
      forall k: nat | 1 <= k <= n ensures pages(k) == Slice(ranked, Offset(k - 1, size), Offset(k, size)) {
        PageIsSlice(users, q, k);
      }
    }
    SlicesCover(pages, ranked, size, n);
  }

  /** When no two selected users were created at the same time, any
      `createdAt` order the database picks for the selected users is the
      model's. */
  lemma RankedIsTheOnlyOrder(users: seq<User>, q: UsersQuery, s: seq<User>)
    requires DistinctTimes(Selected(users, q))
    requires Sorted(q.sortBy, s) && multiset(s) == multiset(Selected(users, q))
    ensures s == Ranked(users, q)
  {
    var ranked := Ranked(users, q);
    assert DistinctTimes(ranked) by {
      forall u, v | u in ranked && v in ranked && u.createdAt == v.createdAt ensures u == v {
        assert u in multiset(Selected(users, q)) && v in multiset(Selected(users, q));
      }
    }
    SortedUnique(q.sortBy, ranked, s);
  }

  /** The pages the database returns when the query for page `k` sorts the
      selected users as `orders(k)`, each page sorting on its own. */
  function OrderedPages(orders: nat -> seq<User>, size: nat): nat -> seq<User> {
    (k: nat) => if k >= 1 then Window(orders(k), Offset(k - 1, size), size) else []
  }

  lemma OrderedPagesAt(orders: nat -> seq<User>, size: nat, k: nat)
    requires k >= 1
    ensures OrderedPages(orders, size)(k) == Window(orders(k), Offset(k - 1, size), size)
  {
  }

  /** Without ties, page `k` of a query that sorts the users as `order` is
      the slice of the model's order from `Offset(k - 1, pageSize)` to
      `Offset(k, pageSize)`. */
  lemma OrderedPageIsSlice(users: seq<User>, q: UsersQuery, order: seq<User>, k: nat)
    requires WellFormed(q) && k >= 1
    requires DistinctTimes(Selected(users, q))
    requires Sorted(q.sortBy, order) && multiset(order) == multiset(Selected(users, q))
    ensures Window(order, Offset(k - 1, q.pageSize), q.pageSize) ==
      Slice(Ranked(users, q), Offset(k - 1, q.pageSize), Offset(k, q.pageSize))
  {
    RankedIsTheOnlyOrder(users, q, order);
    WindowIsSlice(order, Offset(k - 1, q.pageSize), q.pageSize);
  }

  /** Paging neither skips nor repeats a user even when every page's query
      orders the users on its own, as long as no two selected users share a
      creation time: pages 1 to `n` are then the first `Offset(n, pageSize)`
      users in `createdAt` order. */
  lemma PagesCoverAnyTieFreeOrder(users: seq<User>, q: UsersQuery, orders: nat -> seq<User>, n: nat)
    requires WellFormed(q)
    requires DistinctTimes(Selected(users, q))
    requires forall k: nat :: 1 <= k <= n ==>
      Sorted(q.sortBy, orders(k)) && multiset(orders(k)) == multiset(Selected(users, q))
    ensures Concat(OrderedPages(orders, q.pageSize), n) == Ranked(users, q)[..Min(Offset(n, q.pageSize), |Ranked(users, q)|)]
  {
    var pages, ranked, size := OrderedPages(orders, q.pageSize), Ranked(users, q), q.pageSize;
    assert forall k: nat :: 1 <= k <= n ==> pages(k) == Slice(ranked, Offset(k - 1, size), Offset(k, size)) by {
      forall k: nat | 1 <= k <= n ensures pages(k) == Slice(ranked, Offset(k - 1, size), Offset(k, size)) {
        var order := orders(k);
        assert Sorted(q.sortBy, order) && multiset(order) == multiset(Selected(users, q));
        OrderedPageIsSlice(users, q, order, k);
        OrderedPagesAt(orders, size, k);
      }
    }
    SlicesCover(pages, ranked, size, n);
  }

  /** `fetchUsers({ userId })`: the first 20 other users, newest first. */
  lemma DefaultQueryIsFirstTwentyNewest(users: seq<User>, userId: string)
    ensures WellFormed(DefaultQuery(userId))
    ensures var r := FetchUsers(users, DefaultQuery(userId));
      && |r.users| == Min(20, |Selected(users, DefaultQuery(userId))|)
      && Sorted(Desc, r.users)
      && r.users == Ranked(users, DefaultQuery(userId))[..|r.users|]
      && (r.isNext <==> |Selected(users, DefaultQuery(userId))| > 20)
      && Selected(users, DefaultQuery(userId)) == Seqs.Filter(users, (u: User) => u.id != userId)
  {
    var q := DefaultQuery(userId);
    assert SkipAmount(q) == 0;
    JsStrings.TrimEmptyIffBlank("");
    Seqs.FilterCongruent(users, (u: User) => InFilter(q.userId, q.searchString, u), (u: User) => u.id != userId);
  }

  // ---------------------------------------------------------------------
  // getActivity

  /** `Thread.find({ author: userId })`. */
  function AuthoredBy(threads: seq<Thread>, userId: ObjectId): seq<Thread> {
    Seqs.Filter(threads, (t: Thread) => t.author == userId)
  }

  /** `reduce((acc, t) => acc.concat(t.children), acc)`, a left fold. */
  function ConcatChildren(acc: seq<ObjectId>, ts: seq<Thread>): seq<ObjectId>
    decreases |ts|
  {
    if ts == [] then acc else ConcatChildren(acc + ts[0].children, ts[1..])
  }

  /** The children of `ts`, one thread after the other (right recursion). */
  function Flatten(ts: seq<Thread>): seq<ObjectId> {
    if ts == [] then [] else ts[0].children + Flatten(ts[1..])
  }

  /** The combined reply ids of all threads `userId` wrote. */
  function ChildThreadIds(threads: seq<Thread>, userId: ObjectId): seq<ObjectId> {
    ConcatChildren([], AuthoredBy(threads, userId))
  }

  /** The fold keeps the accumulated ids in front and appends the children
      of each thread in order, duplicates included. */
  lemma {:induction false} ConcatChildrenIsFlatten(acc: seq<ObjectId>, ts: seq<Thread>)
    ensures ConcatChildren(acc, ts) == acc + Flatten(ts)
    decreases |ts|
  {
    if ts != [] {
      ConcatChildrenIsFlatten(acc + ts[0].children, ts[1..]);
      assert acc + ts[0].children + Flatten(ts[1..]) == acc + (ts[0].children + Flatten(ts[1..]));
    }
  }

  /** An id is in the flattened list exactly when some thread of the list
      has it among its children. */
  lemma {:induction false} FlattenMembers(ts: seq<Thread>)
    ensures forall id :: id in Flatten(ts) <==> exists t :: t in ts && id in t.children
  {
    if ts != [] {
      FlattenMembers(ts[1..]);
      assert ts == [ts[0]] + ts[1..];
    }
  }

  /** The combined list is the in-order concatenation of the children of
      every thread the user wrote, and holds an id exactly when one of those
      threads, whichever, lists it. */
  lemma ChildThreadIdsSpec(threads: seq<Thread>, userId: ObjectId)
    ensures ChildThreadIds(threads, userId) == Flatten(AuthoredBy(threads, userId))
    ensures forall id :: id in ChildThreadIds(threads, userId) <==>
      exists t :: t in threads && t.author == userId && id in t.children
  {
    ConcatChildrenIsFlatten([], AuthoredBy(threads, userId));
    FlattenMembers(AuthoredBy(threads, userId));
  }

  /** The reply query: `_id` among the combined ids and author not the user. */
  predicate IsActivity(ids: seq<ObjectId>, userId: ObjectId, t: Thread) {
    t.oid in ids && t.author != userId
  }

  /** `getActivity(userId)`, author population aside. Here `userId` is the
      user's `_id`, the value a thread's `author` holds, not the external id
      the other actions take. */
  function GetActivity(threads: seq<Thread>, userId: ObjectId): (r: seq<Thread>)
    ensures |r| <= |threads|
    ensures forall t :: t in r ==> t.oid in ChildThreadIds(threads, userId) && t.author != userId
    ensures forall t :: t in r <==>
      && t in threads
      && t.author != userId
      && exists p :: p in threads && p.author == userId && t.oid in p.children
  {
    ChildThreadIdsSpec(threads, userId);
    var ids := ChildThreadIds(threads, userId);
    Seqs.Filter(threads, (t: Thread) => IsActivity(ids, userId, t))
  }

  /** A thread is reported once even when several of the user's threads
      list it: when `_id`s are unique, so are the reported threads. */
  lemma ActivityListsEachReplyOnce(threads: seq<Thread>, userId: ObjectId)
    requires UniqueThreadOids(threads)
    ensures forall i, j :: 0 <= i < j < |GetActivity(threads, userId)| ==>
      GetActivity(threads, userId)[i].oid != GetActivity(threads, userId)[j].oid
  {
    var ids := ChildThreadIds(threads, userId);
    var p := (t: Thread) => IsActivity(ids, userId, t);
    OidsDistinctOfFilter(threads, p);
  }

  /** A user whose `_id` is no stored thread's author, as for a user the
      upsert has just inserted, wrote no thread and has no activity. */
  lemma NewUserHasNoActivity(threads: seq<Thread>, next: ObjectId)
    requires forall t :: t in threads ==> t.author != next
    ensures AuthoredBy(threads, next) == []
    ensures ChildThreadIds(threads, next) == []
    ensures GetActivity(threads, next) == []
  {
    var mine := AuthoredBy(threads, next);
    Seqs.FilterCount(threads, (t: Thread) => t.author == next);
    assert multiset(mine) == multiset{};
    assert ConcatChildren([], mine) == [];
    var r := GetActivity(threads, next);
    Seqs.FilterCount(threads, (t: Thread) => IsActivity([], next, t));
    assert multiset(r) == multiset{};
  }

  lemma {:induction false} OidsDistinctOfFilter(threads: seq<Thread>, p: Thread -> bool)
    requires UniqueThreadOids(threads)
    ensures forall i, j :: 0 <= i < j < |Seqs.Filter(threads, p)| ==>
      Seqs.Filter(threads, p)[i].oid != Seqs.Filter(threads, p)[j].oid
  {
    if threads != [] {
      var rest := threads[1..];
      assert UniqueThreadOids(rest) by {
        forall i, j | 0 <= i < j < |rest| ensures rest[i].oid != rest[j].oid {
          assert rest[i] == threads[i + 1] && rest[j] == threads[j + 1];
        }
      }
      OidsDistinctOfFilter(rest, p);
      if p(threads[0]) {
        var r := Seqs.Filter(threads, p);
        var t := Seqs.Filter(rest, p);
        forall i, j | 0 <= i < j < |r| ensures r[i].oid != r[j].oid {
          assert r[j] == t[j - 1];
          if i == 0 {
            assert t[j - 1] in rest;
            var k :| 0 <= k < |rest| && rest[k] == t[j - 1];
            assert rest[k] == threads[k + 1];
          } else {
            assert r[i] == t[i - 1];
          }
        }
      }
    }
  }

  // ---------------------------------------------------------------------
  // fetchUserPosts

  /** The first stored thread with the given `_id`. */
  function FindThread(threads: seq<Thread>, oid: ObjectId): (r: Option<Thread>)
    ensures r.Some? <==> exists t :: t in threads && t.oid == oid
    ensures r.Some? ==> r.value in threads && r.value.oid == oid
  {
    if threads == [] then None
    else if threads[0].oid == oid then Some(threads[0])
    else FindThread(threads[1..], oid)
  }

  /** The first stored user with the given `_id`. */
  function FindUserByOid(users: seq<User>, oid: ObjectId): (r: Option<User>)
    ensures r.Some? <==> exists u :: u in users && u.oid == oid
    ensures r.Some? ==> r.value in users && r.value.oid == oid
  {
    if users == [] then None
    else if users[0].oid == oid then Some(users[0])
    else FindUserByOid(users[1..], oid)
  }

  /** The references that have a stored document, in the list's order. */
  function Resolvable(refs: seq<ObjectId>, threads: seq<Thread>): seq<ObjectId> {
    Seqs.Filter(refs, (id: ObjectId) => FindThread(threads, id).Some?)
  }

  /** Population of a list of thread references: each id replaced by its
      document, in the list's order; ids with no document are dropped. */
  function ResolveThreads(refs: seq<ObjectId>, threads: seq<Thread>): (r: seq<Thread>)
    ensures |r| == |Resolvable(refs, threads)| <= |refs|
    ensures forall k :: 0 <= k < |r| ==>
      FindThread(threads, Resolvable(refs, threads)[k]) == Some(r[k])
    ensures forall t :: t in r ==> t in threads && t.oid in refs
    ensures (forall k :: 0 <= k < |refs| ==> FindThread(threads, refs[k]).Some?) ==>
      |r| == |refs| && forall k :: 0 <= k < |r| ==> r[k].oid == refs[k]
  {
    if refs == [] then []
    else
      match FindThread(threads, refs[0])
      case Some(t) => [t] + ResolveThreads(refs[1..], threads)
      case None => ResolveThreads(refs[1..], threads)
  }

  /** The author fields a reply is populated with: `name image id` (and the
      `_id`, which a selection always keeps). */
  datatype AuthorSummary = AuthorSummary(oid: ObjectId, id: string, name: string, image: string)

  datatype ReplyView = ReplyView(reply: Thread, author: Option<AuthorSummary>)
  datatype PostView = PostView(post: Thread, replies: seq<ReplyView>)
  datatype UserPosts = UserPosts(user: User, posts: seq<PostView>)

  function AuthorOf(users: seq<User>, oid: ObjectId): (r: Option<AuthorSummary>)
    ensures r.Some? <==> exists u :: u in users && u.oid == oid
    ensures r.Some? ==> exists u :: u in users && u.oid == oid && r.value == AuthorSummary(u.oid, u.id, u.name, u.image)
  {
    match FindUserByOid(users, oid)
    case None => None
    case Some(u) => Some(AuthorSummary(u.oid, u.id, u.name, u.image))
  }

  function ReplyViews(replies: seq<Thread>, users: seq<User>): seq<ReplyView> {
    seq(|replies|, i requires 0 <= i < |replies| => ReplyView(replies[i], AuthorOf(users, replies[i].author)))
  }

  function PostViews(posts: seq<Thread>, users: seq<User>, threads: seq<Thread>): seq<PostView> {
    seq(|posts|, i requires 0 <= i < |posts| =>
      PostView(posts[i], ReplyViews(ResolveThreads(posts[i].children, threads), users)))
  }

  /** `fetchUserPosts(userId)`: the user of `fetchUser`, with the threads it
      references and, for each, the replies it references with their
      authors. No user means no result, not an error. */
  function FetchUserPosts(users: seq<User>, threads: seq<Thread>, userId: string): (r: Option<UserPosts>)
    ensures r.Some? <==> UserStore.FetchUser(users, userId).Some?
    ensures r.Some? ==> r.value.user == UserStore.FetchUser(users, userId).value
    ensures r.Some? ==>
      var posts := ResolveThreads(r.value.user.threads, threads);
      && |r.value.posts| == |posts|
      && forall k :: 0 <= k < |posts| ==>
           && r.value.posts[k].post == posts[k]
           && var replies := ResolveThreads(posts[k].children, threads);
              && |r.value.posts[k].replies| == |replies|
              && forall m :: 0 <= m < |replies| ==>
                   r.value.posts[k].replies[m] == ReplyView(replies[m], AuthorOf(users, replies[m].author))
  {
    match UserStore.FetchUser(users, userId)
    case None => None
    case Some(u) =>
      var posts := ResolveThreads(u.threads, threads);
      var views := PostViews(posts, users, threads);
      assert forall k :: 0 <= k < |views| ==> views[k].post == posts[k] && views[k].post in posts;
      Some(UserPosts(u, views))
  }

  /** Everything `fetchUserPosts` returns is stored: at most one post per
      thread reference, each a stored thread the user references, and at
      most one reply per child reference, each a stored thread the post
      lists; a reply's author is filled in exactly when a user with that
      `_id` exists. */
  lemma FetchUserPostsStored(users: seq<User>, threads: seq<Thread>, userId: string)
    ensures var r := FetchUserPosts(users, threads, userId);
      r.Some? ==>
      && |r.value.posts| <= |r.value.user.threads|
      && forall k :: 0 <= k < |r.value.posts| ==>
           && r.value.posts[k].post in threads
           && r.value.posts[k].post.oid in r.value.user.threads
           && |r.value.posts[k].replies| <= |r.value.posts[k].post.children|
           && forall m :: 0 <= m < |r.value.posts[k].replies| ==>
                var v := r.value.posts[k].replies[m];
                && v.reply in threads
                && v.reply.oid in r.value.posts[k].post.children
                && (v.author.Some? <==> exists u :: u in users && u.oid == v.reply.author)
  {
    var r := FetchUserPosts(users, threads, userId);
    if r.Some? {
      var posts := ResolveThreads(r.value.user.threads, threads);
      forall k | 0 <= k < |r.value.posts|
        ensures r.value.posts[k].post in threads && r.value.posts[k].post.oid in r.value.user.threads
      {
        assert r.value.posts[k].post == posts[k] && posts[k] in posts;
      }
      forall k, m | 0 <= k < |r.value.posts| && 0 <= m < |r.value.posts[k].replies|
        ensures r.value.posts[k].replies[m].reply in threads
        ensures r.value.posts[k].replies[m].reply.oid in r.value.posts[k].post.children
      {
        var replies := ResolveThreads(posts[k].children, threads);
        assert r.value.posts[k].replies[m].reply == replies[m] && replies[m] in replies;
      }
    }
  }
}
