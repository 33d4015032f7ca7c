/** The two document collections the user actions read and write. */
module Records {

  /** A document's `_id`. The database assigns a fresh one to every
      document it inserts. */
  type ObjectId = nat

  /** A user document: the external auth id `id`, the profile fields the
      profile form saves, the `threads` relation (ids of thread documents)
      and the creation time the user list is sorted by. */
  datatype User = User(
    oid: ObjectId,
    id: string,
    username: string,
    name: string,
    bio: string,
    image: string,
    onboarded: bool,
    threads: seq<ObjectId>,
    createdAt: int)

  /** A thread document: its author (a user's `_id`), its text and its
      replies, the `children` relation, in the order they were added. */
  datatype Thread = Thread(
    oid: ObjectId,
    author: ObjectId,
    text: string,
    children: seq<ObjectId>)

  /** No two user documents share an external id. */
  predicate UniqueIds(users: seq<User>) {
    forall i, j :: 0 <= i < j < |users| ==> users[i].id != users[j].id
  }

  /** No two thread documents share an `_id`. */
  predicate UniqueThreadOids(threads: seq<Thread>) {
    forall i, j :: 0 <= i < j < |threads| ==> threads[i].oid != threads[j].oid
  }

  /** Every `_id` the threads hold, their own, their author's and their
      replies', is below `next`: none of them is one the database has still
      to hand out. */
  predicate ThreadRefsBelow(threads: seq<Thread>, next: ObjectId) {
    forall t :: t in threads ==>
      t.oid < next && t.author < next && (forall c :: c in t.children ==> c < next)
  }

  /** No two user documents share an `_id`. */
  predicate UniqueOids(users: seq<User>) {
    forall i, j :: 0 <= i < j < |users| ==> users[i].oid != users[j].oid
  }
}
