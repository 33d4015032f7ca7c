/** The user collection and the two actions that key it by the external id:
    `updateUser`, an upsert that lower-cases the username and marks the user
    onboarded, and `fetchUser`, a lookup that answers "none" rather than
    failing when no user has the id. */
module UserStore {
  import opened Wrappers
  import opened Records
  import JsStrings

  /** The route whose cached output `updateUser` invalidates. */
  const ProfileEditPath := "/profile/edit"

  /** The profile fields the profile form submits. */
  datatype Profile = Profile(username: string, name: string, bio: string, image: string)

  /** The position of the first user whose external id is `userId`. */
  function IndexOfUser(users: seq<User>, userId: string): (r: Option<nat>)
    ensures r.Some? ==> r.value < |users| && users[r.value].id == userId
    ensures r.Some? ==> forall j :: 0 <= j < r.value ==> users[j].id != userId
    ensures r.None? ==> forall j :: 0 <= j < |users| ==> users[j].id != userId
  {
    if users == [] then None
    else if users[0].id == userId then Some(0)
    else
      match IndexOfUser(users[1..], userId)
      case None => None
      case Some(k) => Some(k + 1)
  }

  /** `fetchUser(userId)`: `findOne({ id: userId })`. */
  function FetchUser(users: seq<User>, userId: string): (r: Option<User>)
    ensures r.Some? <==> exists j :: 0 <= j < |users| && users[j].id == userId
    ensures r.Some? ==> r.value in users && r.value.id == userId
    ensures UniqueIds(users) && r.Some? ==> forall u :: u in users && u.id == userId ==> u == r.value
  {
    match IndexOfUser(users, userId)
    case None => None
    case Some(i) => Some(users[i])
  }

  /** The update document of `updateUser`, applied to a stored user. */
  function Apply(u: User, p: Profile): User {
    u.(username := JsStrings.ToLower(p.username), name := p.name, bio := p.bio,
       image := p.image, onboarded := true)
  }

  /** The document an upsert inserts: the query's `id`, the update's fields,
      an empty `threads` relation and the fresh `_id` and creation time. */
  function NewUser(oid: ObjectId, userId: string, p: Profile, now: int): User {
    Apply(User(oid, userId, "", "", "", "", false, [], now), p)
  }

  /** `findOneAndUpdate({ id: userId }, update, { upsert: true })` on the
      collection's contents. */
  function Upsert(users: seq<User>, userId: string, p: Profile, newOid: ObjectId, now: int): seq<User> {
    match IndexOfUser(users, userId)
    case Some(i) => users[i := Apply(users[i], p)]
    case None => users + [NewUser(newOid, userId, p, now)]
  }

  // ---------------------------------------------------------------------
  // What an upsert does to the collection

  /** After an upsert exactly one user has the id: it holds the lower-cased
      username, the submitted name, bio and image, and is onboarded. */
  lemma UpsertStoresProfile(users: seq<User>, userId: string, p: Profile, newOid: ObjectId, now: int)
    requires UniqueIds(users)
    ensures UniqueIds(Upsert(users, userId, p, newOid, now))
    ensures FetchUser(Upsert(users, userId, p, newOid, now), userId).Some?
    ensures var u := FetchUser(Upsert(users, userId, p, newOid, now), userId).value;
      && u.username == JsStrings.ToLower(p.username)
      && u.name == p.name && u.bio == p.bio && u.image == p.image
      && u.onboarded
  {
    var r := Upsert(users, userId, p, newOid, now);
    match IndexOfUser(users, userId)
    case Some(i) =>
      assert r[i].id == userId;
      assert UniqueIds(r) by {
        forall a, b | 0 <= a < b < |r| ensures r[a].id != r[b].id {
          if a == i {
            assert r[b] == users[b];
          } else if b == i {
            assert r[a] == users[a];
          } else {
            assert r[a] == users[a] && r[b] == users[b];
          }
        }
      }
      assert r[i] in r;
    case None =>
      assert r[|users|].id == userId;
      assert r[|users|] in r;
  }

  /** An upsert leaves every other user as it was, in its place. It adds a
      document exactly when no user had the id, and an existing user keeps
      its `_id`, its threads and its creation time. */
  lemma UpsertKeepsOthers(users: seq<User>, userId: string, p: Profile, newOid: ObjectId, now: int)
    ensures var r := Upsert(users, userId, p, newOid, now);
      && |r| == (if FetchUser(users, userId).Some? then |users| else |users| + 1)
      && (forall j :: 0 <= j < |users| && users[j].id != userId ==> r[j] == users[j])
      && (forall j :: 0 <= j < |users| && users[j].id == userId ==>
            r[j].id == userId && r[j].oid == users[j].oid && r[j].threads == users[j].threads && r[j].createdAt == users[j].createdAt)
      && (FetchUser(users, userId).None? ==> r[|users|] == NewUser(newOid, userId, p, now))
  {
  }

  /** Handing the next `_id` to an inserted user keeps `_id`s unique and
      below the following one; an update hands out none. */
  lemma UpsertFreshOid(users: seq<User>, userId: string, p: Profile, next: ObjectId, now: int)
    requires UniqueOids(users)
    requires forall u :: u in users ==> u.oid < next
    ensures UniqueOids(Upsert(users, userId, p, next, now))
    ensures forall u :: u in Upsert(users, userId, p, next, now) ==> u.oid <= next
    ensures FetchUser(users, userId).Some? ==>
      forall u :: u in Upsert(users, userId, p, next, now) ==> u.oid < next
  {
    var r := Upsert(users, userId, p, next, now);
    UpsertKeepsOthers(users, userId, p, next, now);
    assert forall j :: 0 <= j < |users| ==> r[j].oid == users[j].oid by {
      forall j | 0 <= j < |users| ensures r[j].oid == users[j].oid {
        if users[j].id == userId {
          assert IndexOfUser(users, userId).Some?;
        }
      }
    }
    forall u | u in r ensures u.oid <= next && (FetchUser(users, userId).Some? ==> u.oid < next) {
      var j :| 0 <= j < |r| && r[j] == u;
      if j < |users| {
        assert users[j] in users;
      }
    }
    forall a, b | 0 <= a < b < |r| ensures r[a].oid != r[b].oid {
      if b == |users| {
        assert users[a] in users;
      }
    }
  }

  /** A second upsert with the same id updates the document the first one
      wrote, never a second one: only the last profile counts, and the
      `_id` and creation time are those of the first write. */
  lemma UpsertLastWriteWins(users: seq<User>, userId: string, p1: Profile, p2: Profile,
                            oid1: ObjectId, oid2: ObjectId, t1: int, t2: int)
    ensures Upsert(Upsert(users, userId, p1, oid1, t1), userId, p2, oid2, t2) == Upsert(users, userId, p2, oid1, t1)
    ensures |Upsert(Upsert(users, userId, p1, oid1, t1), userId, p2, oid2, t2)| == |Upsert(users, userId, p1, oid1, t1)|
  {
    var r1 := Upsert(users, userId, p1, oid1, t1);
    match IndexOfUser(users, userId)
    case Some(i) =>
      assert IndexOfUser(r1, userId) == Some(i) by {
        var k := IndexOfUser(r1, userId);
        assert r1[i].id == userId;
        assert forall j :: 0 <= j < i ==> r1[j] == users[j];
      }
      assert Apply(Apply(users[i], p1), p2) == Apply(users[i], p2);
    case None =>
      assert IndexOfUser(r1, userId) == Some(|users|) by {
        assert r1[|users|].id == userId;
        assert forall j :: 0 <= j < |users| ==> r1[j] == users[j];
      }
      assert Apply(NewUser(oid1, userId, p1, t1), p2) == NewUser(oid1, userId, p2, t1);
  }

  /** Upserting the same profile twice changes nothing the second time. */
  lemma UpsertIdempotent(users: seq<User>, userId: string, p: Profile, oid1: ObjectId, oid2: ObjectId, t1: int, t2: int)
    ensures Upsert(Upsert(users, userId, p, oid1, t1), userId, p, oid2, t2) == Upsert(users, userId, p, oid1, t1)
  {
    UpsertLastWriteWins(users, userId, p, p, oid1, oid2, t1, t2);
  }

  /** The database the actions run against, held in memory: the user and
      thread collections, the routes handed to the cache-revalidation hook,
      and the next `_id` the database will hand out. */
  class Database {
    var users: seq<User>
    var threads: seq<Thread>
    var revalidated: seq<string>
    var nextOid: ObjectId

    /** At most one user per external id, no two users with one `_id`,
        no two threads with one `_id`, and every `_id` a document holds or
        references below the next one to be handed out. */
    ghost predicate Valid()
      reads this
    {
      && UniqueIds(users)
      && UniqueOids(users)
      && (forall u :: u in users ==> u.oid < nextOid)
      && (forall u, id :: u in users && id in u.threads ==> id < nextOid)
      && UniqueThreadOids(threads)
      && ThreadRefsBelow(threads, nextOid)
    }

    /** A database with no users, holding the given threads, that hands out
        `_id`s from `next` on, past every `_id` the threads hold. */
    constructor (threads: seq<Thread>, next: ObjectId)
      requires UniqueThreadOids(threads)
      requires ThreadRefsBelow(threads, next)
      ensures Valid()
      ensures users == [] && this.threads == threads && revalidated == [] && nextOid == next
    {
      users := [];
      this.threads := threads;
      revalidated := [];
      nextOid := next;
    }

    /** `updateUser`: upsert the profile under `userId`, then ask for the
        profile-edit route to be revalidated when that is the calling route. */
    method UpdateUser(userId: string, username: string, name: string, bio: string, image: string,
                      path: string, now: int)
      requires Valid()
      modifies this
      ensures Valid()
      ensures users == Upsert(old(users), userId, Profile(username, name, bio, image), old(nextOid), now)
      ensures nextOid == if FetchUser(old(users), userId).Some? then old(nextOid) else old(nextOid) + 1
      ensures threads == old(threads)
      ensures FetchUser(old(users), userId).None? ==>
        forall t :: t in threads ==> t.author != old(nextOid) && t.oid != old(nextOid) && old(nextOid) !in t.children
      ensures revalidated == old(revalidated) + (if path == ProfileEditPath then [path] else [])
    {
      var p := Profile(username, name, bio, image);
      UpsertStoresProfile(users, userId, p, nextOid, now);
      UpsertKeepsOthers(users, userId, p, nextOid, now);
      UpsertFreshOid(users, userId, p, nextOid, now);
      var inserted := FetchUser(users, userId).None?;
      users := Upsert(users, userId, p, nextOid, now);
      if inserted {
        nextOid := nextOid + 1;
      }
      if path == ProfileEditPath {
        revalidated := revalidated + [path];
      }
    }
  }
}
