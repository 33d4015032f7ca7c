# Thread app user actions and form schemas, in Dafny

This project models the server-side core of a small social "threads" app.
Users sign up, fill in a profile, post threads and reply to each other's
threads. The model covers two files:

- `lib/actions/user.action.ts`, the user actions over two document
  collections, users and threads:
  - `updateUser` upserts a profile keyed by the external auth id. It
    lower-cases the username and marks the user onboarded. It asks for the
    route to be revalidated only when that route is `/profile/edit`.
  - `fetchUser` looks a user up by that id.
  - `fetchUserPosts` returns a user with their threads, those threads'
    replies, and the replies' authors. The threads' own authors stay
    unpopulated references.
  - `fetchUsers` is the paginated, searchable and sorted user list with its
    `isNext` flag.
  - `getActivity` returns the replies other users wrote to a user's threads.
- `lib/validations/thread.ts`, the two form schemas: `ThreadValidation`
  (`thread`, `accountId`) and `CommentValidation` (`thread`).

Modules:

- `Records`: the user and thread documents. `_id` is a `nat`.
- `UserStore`: the user collection as a sequence, `Upsert` and `FetchUser`
  over it, and the class `Database`. `Database` holds the collections, the
  list of revalidated routes, and the next `_id` to hand out. Its method
  `UpdateUser` changes that state in place.
- `UserQueries`: `fetchUsers`, `getActivity` and `fetchUserPosts`, as
  functions of the collections' contents.
- `CreatedAtOrder`: the `createdAt` sort.
- `JsStrings`: the JavaScript string operations the code relies on
  (`toLowerCase`, `trim`, `length`, case-insensitive search).
- `Seqs`: a generic filter.
- `Validations`: the schemas, as pure parse functions from a JavaScript value
  to either the typed data or the list of issues.

The database connection, the clock and the cache-revalidation hook are not
called directly:

- the creation time of an inserted user is the parameter `now` (the user
  schema is assumed to keep `createdAt` timestamps, set at insert);
- the database's fresh `_id` is the counter `nextOid`;
- a revalidation is recorded by appending the route to `revalidated`.

Two details of the schemas:

- The custom message of the `thread` rule is spelled "Minimun 3 characters"
  (`lib/validations/thread.ts:5`).
- `accountId` is only `z.string()` (`lib/validations/thread.ts:6`), so an
  empty account id passes.

`getActivity` takes the user's `_id`, the value a thread's `author` holds.
The other actions take the external auth `id`.

## Model

| member | source | states |
|---|---|---|
| UserStore.Database.UpdateUser | lib/actions/user.action.ts:18-47 | keeps the store invariant (unique external ids, unique user `_id`s, unique thread `_id`s as `ActivityListsEachReplyOnce` assumes, and every `_id` below the next one to be handed out: each user's own and those in its `threads` relation, each thread's own, its author's and its replies'); the users become the upsert of the profile under `userId`; a fresh `_id` is used only when an insert happened, and no stored thread references it, so the new user has no threads and no activity (`NewUserHasNoActivity`); threads unchanged; the route is recorded for revalidation exactly when it is `/profile/edit` |
| UserStore.Database.constructor | lib/actions/user.action.ts:18-47 | an empty user collection, with threads of unique `_id`s whose own, author and reply `_id`s all lie below the first `_id` to be handed out, satisfies the store invariant, and new `_id`s start there |
| UserStore.UpsertStoresProfile | lib/actions/user.action.ts:28-38 | after the upsert, `fetchUser(userId)` finds a user: its username is the lower-cased one, its name, bio and image are the submitted ones, and it is onboarded; external ids stay unique |
| UserStore.UpsertKeepsOthers | lib/actions/user.action.ts:28-38 | the upsert adds a document exactly when no user had the id, and then the new document comes last; every other user is unchanged and in place; an updated user keeps its `_id`, threads and creation time |
| UserStore.UpsertFreshOid | lib/actions/user.action.ts:28-38 | an insert takes the next fresh `_id`, so `_id`s stay unique; an update hands out no new `_id` |
| UserStore.UpsertLastWriteWins | lib/actions/user.action.ts:28-38 | two upserts under one id equal the single upsert of the second profile, with the first write's `_id` and creation time; the second adds no document |
| UserStore.UpsertIdempotent | lib/actions/user.action.ts:28-38 | upserting the same profile twice changes nothing the second time |
| UserStore.Apply | lib/actions/user.action.ts:30-36 | the update document applied to a stored user; `UpsertStoresProfile` states what it sets |
| UserStore.NewUser | lib/actions/user.action.ts:28-38 | the document an upsert inserts; `UpsertKeepsOthers` states that it is appended exactly when no user has the id |
| UserStore.Upsert | lib/actions/user.action.ts:28-38 | `findOneAndUpdate` with `upsert: true` on the collection; characterized by `UpsertStoresProfile`, `UpsertKeepsOthers`, `UpsertFreshOid` and `UpsertLastWriteWins` |
| UserStore.IndexOfUser | lib/actions/user.action.ts:29 | the position of the first user whose id matches, or none when no user has it |
| UserStore.FetchUser | lib/actions/user.action.ts:49-61 | finds a user exactly when one has the id; the result comes from the collection and has that id; with unique ids it is the only such user; no user gives "none", not an error |
| UserQueries.FetchUserPosts | lib/actions/user.action.ts:63-87 | a result exactly when `fetchUser` finds the user, and then it holds that user; its posts are, one for one and in order, the populated thread references of that user; each post's replies are, one for one and in order, the populated children of that post; each reply's author is that reply author's summary (`AuthorOf`), present exactly when a user with that `_id` exists; every post and reply is a stored thread |
| UserQueries.PostViews | lib/actions/user.action.ts:69-81 | each thread reference populated with its `children`; `FetchUserPosts` states that each post's replies are, one for one and in order, the populated children of that post |
| UserQueries.ReplyViews | lib/actions/user.action.ts:72-80 | each reply populated with its `author`; `FetchUserPosts` states that each reply's author is that reply author's summary (`AuthorOf`) |
| UserQueries.Resolvable | lib/actions/user.action.ts:69-81 | the references that have a stored document; `Seqs.Filter` states that it keeps exactly those and no more references than there were, and `ResolveThreads` states that population yields one document for each |
| UserQueries.FetchUserPostsStored | lib/actions/user.action.ts:63-87 | everything `fetchUserPosts` returns is stored: at most one post per thread reference, each a stored thread the user references; at most one reply per child reference, each a stored thread the post lists; an author is filled in exactly when a user with that `_id` exists |
| UserQueries.ResolveThreads | lib/actions/user.action.ts:69-81 | population yields one document per resolvable reference, in the list's order: the k-th is the stored thread the k-th resolvable reference finds; so all resolving references are kept and only dangling ones are dropped, and when every reference resolves it yields them one for one |
| UserQueries.FindThread | lib/actions/user.action.ts:69-81 | finds a thread exactly when one has the `_id`, and returns a stored one with it |
| UserQueries.FindUserByOid | lib/actions/user.action.ts:75-79 | finds a user exactly when one has the `_id`, and returns a stored one with it |
| UserQueries.AuthorOf | lib/actions/user.action.ts:75-79 | an author summary exactly when a user with the `_id` exists; it holds that user's `_id`, id, name and image |
| UserQueries.DefaultQuery | lib/actions/user.action.ts:89-94 | the defaults `pageNumber = 1`, `pageSize = 20`, `searchString = ""`, `sortBy = "desc"`; `DefaultQueryIsFirstTwentyNewest` states the page they give |
| UserQueries.WellFormed | lib/actions/user.action.ts:89-105 | page number and size at least 1, which `FetchUsers` requires; the other numbers are listed under "Left out" |
| UserQueries.InFilter | lib/actions/user.action.ts:109-118 | the query document on one user; `FetchUsers`, `RankedMembers` and `BlankSearchIsNoSearch` state what it selects |
| UserQueries.Filtered | lib/actions/user.action.ts:109-122 | `User.find(query)` in stored order; `Seqs.Filter` states that it keeps exactly the users `InFilter` accepts, and `BlankSearchSelectsOthers` what a blank search keeps |
| UserQueries.Selected | lib/actions/user.action.ts:109-127 | the users the query document selects, whose number `countDocuments` reports (`Seqs.FilterCount`: each matching user counted once per stored document); characterized by `Seqs.Filter`, `Seqs.FilterCount` and `RankedMembers` |
| UserQueries.Ranked | lib/actions/user.action.ts:120-123 | the selected users in the requested `createdAt` order; `RankedMembers` and `RankedIsTheOnlyOrder` state what it is |
| UserQueries.Offset | lib/actions/user.action.ts:105 | the users on `pages` full pages, counted page by page; `OffsetIsProduct` states that it is the product |
| UserQueries.SkipAmount | lib/actions/user.action.ts:105 | `(pageNumber - 1) * pageSize`, by `OffsetIsProduct` |
| UserQueries.FetchUsers | lib/actions/user.action.ts:89-137 | a page holds at most `pageSize` users, exactly `min(pageSize, total - skip)` of them, or none past the end; the k-th is the selected list's (skip+k)-th in creation-time order; every listed user is stored and is not the caller, and matches the search when it is not blank; the page is sorted; `isNext` holds exactly when more selected users follow this page |
| UserQueries.Window | lib/actions/user.action.ts:122-125 | `.skip(skip).limit(size)`: the length is `min(size, n - skip)`, or 0 past the end, and the k-th element is the list's (skip+k)-th |
| UserQueries.WindowOf | lib/actions/user.action.ts:122-125 | a window holds only list elements, and a window of a sorted list is sorted |
| UserQueries.RankedMembers | lib/actions/user.action.ts:109-123 | the sorted list has the selected users' count, is in the requested `createdAt` order, and holds only stored users the query document selects |
| UserQueries.FetchUsersExcludesCaller | lib/actions/user.action.ts:110 | the calling user is never listed, whatever the other arguments |
| UserQueries.IsNextIffNextPageNonEmpty | lib/actions/user.action.ts:131 | `isNext` holds exactly when the following page is not empty |
| UserQueries.LastPageHasNoNext | lib/actions/user.action.ts:127-131 | when the skipped users plus one page reach the total, `isNext` is false; past the end the page is empty |
| UserQueries.BlankSearchIsNoSearch | lib/actions/user.action.ts:113-118 | a search string that trims to nothing selects the same users and gives the same page as no search: all users but the caller |
| UserQueries.BlankSearchSelectsOthers | lib/actions/user.action.ts:109-118 | with a blank search string the query document selects exactly the users other than the caller |
| UserQueries.OffsetIsProduct | lib/actions/user.action.ts:105 | the users on `pages` full pages number `pages * size` |
| UserQueries.WindowIsSlice | lib/actions/user.action.ts:124-125 | a window is the slice from `skip` to `skip + size`, cut off at the end of the list |
| UserQueries.SlicesCover | lib/actions/user.action.ts:105 | consecutive slices of one width, read in turn, make up a prefix of the list |
| UserQueries.PageIsSlice | lib/actions/user.action.ts:105-129 | page n is the ordered list's slice from `(n - 1) * pageSize` to `n * pageSize` |
| UserQueries.PagesCoverRanked | lib/actions/user.action.ts:105-129 | in the model's order (ties kept in stored order), pages 1 to n, read in turn, are the first `n * pageSize` users of the ordered list; for the program's own tie order see `PagesCoverAnyTieFreeOrder` |
| UserQueries.RankedIsTheOnlyOrder | lib/actions/user.action.ts:120-123 | when no two selected users share a creation time, every `createdAt`-sorted arrangement of the selected users is the model's order, whatever order the database picks |
| UserQueries.OrderedPages | lib/actions/user.action.ts:122-125 | the pages when each page's query sorts the selected users its own way; used by `PagesCoverAnyTieFreeOrder` |
| UserQueries.OrderedPageIsSlice | lib/actions/user.action.ts:105-125 | without ties, page k of a query that sorts the selected users its own way is the model's slice from `(k - 1) * pageSize` to `k * pageSize` |
| UserQueries.PagesCoverAnyTieFreeOrder | lib/actions/user.action.ts:105-129 | when no two selected users share a creation time, pages 1 to n, each sorted by its own query, read in turn are the first `n * pageSize` users in `createdAt` order: no user is skipped or repeated |
| UserQueries.DefaultQueryIsFirstTwentyNewest | lib/actions/user.action.ts:89-94 | with the defaults (page 1, size 20, no search, `desc`) the result is the first min(20, total) other users, newest first, and `isNext` means more than 20 |
| UserQueries.AuthoredBy | lib/actions/user.action.ts:144 | `Thread.find({ author: userId })`, a filter characterized by `Seqs.Filter` |
| UserQueries.ConcatChildren | lib/actions/user.action.ts:147-149 | the `reduce`; `ConcatChildrenIsFlatten` states what it computes |
| UserQueries.ChildThreadIds | lib/actions/user.action.ts:144-149 | the `childThreadIds` of the user's threads; `ChildThreadIdsSpec` states what it holds |
| UserQueries.ConcatChildrenIsFlatten | lib/actions/user.action.ts:147-149 | the `reduce` keeps the accumulated ids first, then appends each thread's children in order, duplicates included |
| UserQueries.FlattenMembers | lib/actions/user.action.ts:147-149 | an id is in the combined list exactly when some thread of the list has it among its children |
| UserQueries.ChildThreadIdsSpec | lib/actions/user.action.ts:144-149 | the combined id list is the in-order concatenation of the children of the user's threads, and holds an id exactly when a thread the user wrote lists it |
| UserQueries.IsActivity | lib/actions/user.action.ts:152-154 | the reply query document: `_id` in `childThreadIds` and an author other than the user; `GetActivity` states that exactly the stored threads it accepts are reported |
| UserQueries.GetActivity | lib/actions/user.action.ts:139-166 | a thread is reported exactly when it is stored, is not by the user, and is a child of some thread the user wrote; its `_id` is in the combined list; no more replies than stored threads |
| UserQueries.ActivityListsEachReplyOnce | lib/actions/user.action.ts:152-154 | a reply is reported once even when several of the user's threads list it (stored `_id`s are unique) |
| UserQueries.NewUserHasNoActivity | lib/actions/user.action.ts:144-154 | a user whose `_id` is no stored thread's author, as `UpdateUser` ensures for one it has just inserted with a new ObjectId, wrote no thread, has an empty combined reply list and no activity |
| UserQueries.OidsDistinctOfFilter | lib/actions/user.action.ts:152-154 | a query on documents with unique `_id`s returns documents with unique `_id`s |
| CreatedAtOrder.Insert | lib/actions/user.action.ts:120-123 | inserting into a sorted list keeps it sorted, adds exactly that user, and adds one to the length |
| CreatedAtOrder.SortByCreatedAt | lib/actions/user.action.ts:120-123 | the sorted list is in `createdAt` order (ascending for `asc`, descending for `desc`) and is a permutation of its input |
| CreatedAtOrder.SortedTail | lib/actions/user.action.ts:120-123 | dropping the first user of a sorted list leaves it sorted |
| CreatedAtOrder.SameHead | lib/actions/user.action.ts:120-123 | without ties, two sorted arrangements of the same users start with the same user |
| CreatedAtOrder.SameTail | lib/actions/user.action.ts:120-123 | dropping the same first user from two arrangements of the same users leaves arrangements of the same users |
| CreatedAtOrder.DistinctTimesTail | lib/actions/user.action.ts:120-123 | dropping a user keeps creation times distinct |
| CreatedAtOrder.SortedUnique | lib/actions/user.action.ts:120-123 | without ties the `createdAt` order is unique: two sorted arrangements of the same users are equal |
| CreatedAtOrder.SortedCons | lib/actions/user.action.ts:120-123 | a user that may precede every element of a sorted list may go in front of it |
| Seqs.Filter | lib/actions/user.action.ts:122 | a query keeps exactly the documents that match, and no more than there were; `FilterCount` states that each match is kept as often as it is stored |
| Seqs.FilterCount | lib/actions/user.action.ts:122-127 | a query returns each matching document exactly as often as it is stored and nothing else, so its length is the number of matching documents |
| Seqs.FilterCongruent | lib/actions/user.action.ts:109-118 | two query documents that agree on every stored document select the same documents |
| JsStrings.ToLower | lib/actions/user.action.ts:31 | `username.toLowerCase()`; `ToLowerIsLower`, `ToLowerIgnoresCase` and `ToLowerFixesLowerCase` state what it does |
| JsStrings.ToLowerIsLower | lib/actions/user.action.ts:31 | a lower-cased username has its input's length, holds no upper-case letter, and is unchanged by lower-casing again |
| JsStrings.ToLowerIgnoresCase | lib/actions/user.action.ts:31 | usernames that differ only in letter case are stored as the same string |
| JsStrings.ToLowerFixesLowerCase | lib/actions/user.action.ts:31 | lower-casing leaves a string alone exactly when it has no upper-case letter |
| JsStrings.Trim | lib/actions/user.action.ts:113 | `searchString.trim()`; `TrimStartShape`, `TrimEndShape` and `TrimEmptyIffBlank` state what it does: only whitespace is removed, from both ends, and the result neither starts nor ends with whitespace |
| JsStrings.IsJsWhitespace | lib/actions/user.action.ts:113 | the characters `trim` removes (JavaScript's WhiteSpace and LineTerminator); `TrimStartShape`, `TrimEndShape` and `TrimEmptyIffBlank` state how `Trim` uses it |
| JsStrings.TrimStartDropsBlank | lib/actions/user.action.ts:113 | what trimming the start drops is a prefix of whitespace only |
| JsStrings.TrimStartShape | lib/actions/user.action.ts:113 | trimming the start drops a prefix of whitespace only; the result is empty exactly for blank strings, and otherwise does not start with whitespace |
| JsStrings.TrimEndShape | lib/actions/user.action.ts:113 | trimming the end drops a suffix of whitespace only; the result is empty exactly for blank strings, and otherwise does not end with whitespace |
| JsStrings.TrimEmptyIffBlank | lib/actions/user.action.ts:113 | `searchString.trim() !== ""` holds exactly when the string has a non-whitespace character; a non-empty trimmed string neither starts nor ends with whitespace |
| JsStrings.Matches | lib/actions/user.action.ts:107 | the `'i'` regular-expression test, as a case-insensitive substring test; `ContainsAt`, `MatchesIgnoresCase` and `AnnMatchesAnn` state what it does |
| JsStrings.ContainsAt | lib/actions/user.action.ts:107 | the substring test holds exactly when the pattern occurs at some position |
| JsStrings.MatchesIgnoresCase | lib/actions/user.action.ts:107 | the `'i'` flag: the search ignores the letter case of both the pattern and the text |
| JsStrings.AnnMatchesAnn | lib/actions/user.action.ts:107 | the search "ann" finds "Ann" |
| JsStrings.Utf16Length | lib/validations/thread.ts:5 | a string's `length` in UTF-16 code units; bounded by `Utf16LengthBounds` |
| JsStrings.Utf16LengthBounds | lib/validations/thread.ts:5 | a string's `length` in UTF-16 code units is between its number of characters and twice that, and is 0 only for the empty string |
| Validations.ParseThread | lib/validations/thread.ts:4-7 | `ThreadValidation.safeParse`; `ThreadValidationAccepts`, `EmptyThreadRejected`, `ShortThreadRejected`, `EmptyAccountIdAccepted`, `UnknownKeysIgnored` and `NonObjectRejected` state what it returns |
| Validations.ParseComment | lib/validations/thread.ts:9-11 | `CommentValidation.safeParse`; `CommentValidationIsThreadRule` and the lemmas on `thread` state what it returns |
| Validations.ThreadRules | lib/validations/thread.ts:5 | the `thread` rules: `.nonempty()`, then `.min(3)` with the custom message; `ThreadLengthIssues` unfolds the issues they give |
| Validations.LengthIssues | lib/validations/thread.ts:5 | one issue per length rule the string breaks, in rule order; `ThreadLengthIssues` states it for the `thread` rules |
| Validations.StringIssues | lib/validations/thread.ts:5-6 | `z.string()` then the length rules: one type issue for a non-string or missing value, otherwise the length issues; `NonStringThreadRejected` and `AccountIdIssuesEmptyIff` state both cases |
| Validations.ThreadIssues | lib/validations/thread.ts:5 | the issues of the `thread` field; `ThreadLengthIssues`, `ThreadIssuesEmptyIff` and `NonStringThreadRejected` state what it gives |
| Validations.AccountIdIssues | lib/validations/thread.ts:6 | the issues of the `accountId` field; `AccountIdIssuesEmptyIff` and `EmptyAccountIdAccepted` state what it gives |
| Validations.NotAnObject | lib/validations/thread.ts:4-11 | the single type issue for an input that is not an object; `NonObjectRejected` states that both schemas return it |
| Validations.ThreadLengthIssues | lib/validations/thread.ts:5 | both length rules on `thread` run: an issue for minimum 1 when the length is below 1, then one for minimum 3, with the custom message, when it is below 3 |
| Validations.ThreadIssuesEmptyIff | lib/validations/thread.ts:5 | the `thread` field gives no issue exactly when it is a string of length at least 3 |
| Validations.AccountIdIssuesEmptyIff | lib/validations/thread.ts:6 | the `accountId` field gives no issue exactly when it is a string |
| Validations.ThreadValidationAccepts | lib/validations/thread.ts:4-7 | `ThreadValidation` accepts exactly the objects whose `thread` is a string of length at least 3 and whose `accountId` is a string, and then returns those two strings unchanged |
| Validations.EmptyThreadRejected | lib/validations/thread.ts:5 | an empty `thread` breaks both rules, `nonempty` first, and both schemas reject it |
| Validations.ShortThreadRejected | lib/validations/thread.ts:5 | a `thread` of length 1 or 2 breaks only the minimum-3 rule, and that issue carries "Minimun 3 characters" |
| Validations.EmptyAccountIdAccepted | lib/validations/thread.ts:6 | an empty `accountId` is accepted whenever `thread` is |
| Validations.CommentValidationIsThreadRule | lib/validations/thread.ts:9-11 | `CommentValidation` accepts exactly when the `thread` rule does, reports the same `thread` issues, returns the same `thread` as `ThreadValidation`, and never looks at `accountId` |
| Validations.UnknownKeysIgnored | lib/validations/thread.ts:4-11 | the object schemas ignore unknown keys: an object parses as it does with only the schema's keys |
| Validations.NonObjectRejected | lib/validations/thread.ts:4-11 | an input that is not an object gets a single type issue on the whole input, from both schemas |
| Validations.NonStringThreadRejected | lib/validations/thread.ts:5 | a missing or non-string `thread` gives one type issue on that field and no length issue, and both schemas reject it |
| Validations.NaNReportedAsNaN | lib/validations/thread.ts:4-11 | a `NaN`, as the `thread` field or as the whole input, is reported with received type `nan`, not `number`, as the type check classifies it |
| Validations.ShortCommentExample | lib/validations/thread.ts:10 | a 2-character comment, "hi", is rejected with the single issue "Minimun 3 characters" |
| Validations.LongCommentExample | lib/validations/thread.ts:10 | an 8-character comment, "hi there", is accepted unchanged |

## Left out

- The database connection (`connectToDB`), `async`/`await`, concurrent requests and network or driver failures are left out. The actions are atomic functions of the collections' contents.
- The error wrapping (`Fail to ... : message`, and the rethrow in `getActivity`) is left out, and so are the paths that reach it. Besides driver failures, the inputs listed below for `UpdateUser`, `FetchUsers` and `GetActivity` reach it. `console.log` and `console.error` are output only.
- The Next.js revalidation itself is not part of this model, since the cache is outside these files. `UpdateUser` only records which route it asks for.
- The user schema, `lib/models/user.model`, is not part of this model. The model assumes it has `timestamps` on, so that `createdAt` is set once, at insert; `now` stands for that time. The `updatedAt` timestamps are left out, since nothing in these files reads them.
- UserStore.Database.UpdateUser: the model assumes no unique index on `username`. If the user schema declares one, an upsert whose lower-cased username another user already holds fails in `findOneAndUpdate` and is rethrown as "Fail to create/update user: ...". The model stores the duplicate username instead.
- UserQueries.FetchUsers: a search string that is not a valid regular expression (such as "c++" or "(") makes `new RegExp` throw, and the action fails with "Fail to fetch users: ...". The model returns a page for such a string instead.
- UserQueries.GetActivity: a `userId` that is not an ObjectId string makes `Thread.find({ author: userId })` throw a cast error, which the action rethrows. The model's `userId` is an `_id`, so that error path is not modelled.
- UserQueries.GetActivity: the author of each reply is not populated (`name image _id`), because it adds no filtering or order. `fetchUserPosts` shows how authors are populated.
- JsStrings.Matches: the search text is used as a regular expression. The model treats it as a literal, case-insensitive substring, which is right only for search strings without regular-expression metacharacters.
- JsStrings.ToLower: lower-casing covers the ASCII letters A–Z only, not the full Unicode case mapping of `toLowerCase`. The `'i'` comparison uses the same folding.
- CreatedAtOrder.SortByCreatedAt: users with equal `createdAt` keep their stored order (a stable sort). The database leaves the order of ties unspecified.
- UserQueries.PagesCoverRanked: it holds for the model's single order. The database may order tied users differently for each page's query, so with ties a user can appear on two pages or on none. `PagesCoverAnyTieFreeOrder` proves the no-skip, no-repeat property for any per-page order only when no two selected users share a creation time.
- UserQueries.FetchUsers: it requires `pageNumber >= 1` and `pageSize >= 1`. For other JavaScript numbers (zero, negatives, fractions, NaN), the code passes values to skip and limit that the database interprets its own way, and that is not modelled.
- UserQueries.FetchUserPosts and UserQueries.ResolveThreads: a reference with no stored document is dropped, and each reference resolves to the first stored thread with that `_id`. The database driver's handling of duplicate `_id`s is not modelled.
- Validations: only the issue kinds these schemas raise are modelled (wrong type, string too short). The library's default messages are not modelled, except the custom "Minimun 3 characters".
- components/forms/Comment.tsx, the comment form that uses `CommentValidation`, is not part of this model.
