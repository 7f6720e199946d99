# Anonymous message board: thread and reply moderation

This project is a Dafny model of the thread handler of an anonymous message
board. Boards hold threads and threads hold replies. Threads and replies can be
reported by anyone. They can be deleted only with the password their poster
chose. A deleted thread is removed. A deleted reply stays in place with its
text replaced by `[deleted]`.

The model covers the handler's eight operations (`controllers/threadHandler.js`)
and the `Threads` Mongoose model they work on (`models/Thread.js`). Each
operation is a pure transition on an abstract store, `Db`:

- `threads` is a map from ObjectId to `Thread`, keyed by the document's own id;
- `clock` is a logical clock.

Every write that stamps a time or generates an ObjectId uses the current tick
and then advances the clock by one. Timestamps therefore strictly increase and
generated ids are fresh. Every operation yields a `Result`: a value, a
`Rejected(message)` carrying the exact message the handler throws, or a
`Fault` for a null dereference. The two reads, `GetThreads` and
`GetReplysList`, return that `Result` alone. The six writes return a `Step`,
which pairs the `Result` with the store after the call.

Modules, one per concern:

- `Results` (results.dfy): `Option`, `Failure`, `Result`.
- `Hashing` (hashing.dfy): bcrypt reduced to an idealised `Hash` and its
  `Matches` check (`compareSync`). The model's digest verifies against the
  secret it was made from and against no other.
- `Ordering` (ordering.dfy): MongoDB's descending sort, as a stable insertion
  sort on a numeric key. `createReply`'s `$push … $sort` and `getThreads`'s
  `sort({ bumped_on: -1 })` both use it.
- `ThreadModel` (thread_model.dfy): the `Thread`/`Reply` records, the schema
  defaults, required-field validation, the timestamps and the pre-save hook.
- `ThreadHandler` (thread_handler.dfy): the eight operations.
- `StoreInvariant` (invariant.dfy): the invariant `Valid` of every reachable
  store, and one preservation lemma per mutating operation. `Valid` says:
  - board and text are non-empty;
  - `replycount == |replies|`;
  - replies are newest first;
  - `created_on <= bumped_on`, and every reply falls strictly after the
    thread's creation and no later than its last bump;
  - all ids predate the clock;
  - reply ids are unique across the collection.
- `HandlerProperties` (properties.dfy): properties relating several calls:
  - listing after create;
  - create/delete round trips for threads and replies;
  - idempotent reporting;
  - the preview of replies;
  - which thread the redacting update reaches;
  - one whole session, from posting to deleting.

Request parameters are taken as already extracted. An id that is absent or
empty is `None`. A text or password that is absent is `""`. The handler treats
`undefined` and `""` the same way, since both are falsy.

What the handler does in cases that are easy to get wrong:

- `createThread` checks text, then board, then password.
- `getReplysList` on an unknown id succeeds with `null`.
- `createReply` on an unknown thread succeeds with `null` and changes nothing.
- `createReply` returns the thread as it was before the update, because
  `findOneAndUpdate` is not asked for the new document.
- Mongoose's `timestamps` option also stamps `bumped_on` on update queries. So
  `reportThread`, `reportReply` and `deleteReply` bump the thread as well as
  `createReply`. As a result `bumped_on == created_on` can fail before any
  reply, after a report. What always holds is `created_on <= bumped_on`, and
  strictly once the thread has a reply.
- `deleteThread` and `deleteReply` on a missing thread or reply dereference
  `null`/`undefined` and throw a TypeError (`Fault`).

## Model

| member | source | states |
|---|---|---|
| Hashing.Hash | controllers/threadHandler.js:102-105 | the model's idealised digest verifies against the secret it was made from and against no other secret |
| ThreadModel.PreSave | models/Thread.js:22-36 | a modified (plaintext) password is replaced by a digest that verifies against exactly that plaintext; an unmodified one is stored unchanged |
| ThreadModel.NewThread | controllers/threadHandler.js:28-32 | a new document carries the request's board and text, its password as a modified plaintext, and the schema defaults (`reported = false`, `replycount = 0`, no replies); it passes validation exactly when board, text and password are non-empty |
| ThreadModel.Save | models/Thread.js:5-20 | a save succeeds exactly when board, text and password are present; the stored thread keeps the document's board, text, `reported`, `replycount` and replies, has non-empty board and text, equal `created_on`/`bumped_on` at the save time, and a digest that verifies against the plaintext |
| ThreadModel.HasRequired | models/Thread.js:7-10 | the `required` validators: board, text and password must be present and non-empty; `reported` always is, through its default |
| ThreadModel.Touch | models/Thread.js:15-18 | an update query stamps `bumped_on` with the time of the update and changes no other field |
| ThreadModel.NewThreadSaved | models/Thread.js:7-18 | a new thread is stored with `reported = false`, `replycount = 0`, no replies, `created_on == bumped_on`, and a digest of its secret; it saves exactly when board, text and secret are non-empty |
| Ordering.Sort | controllers/threadHandler.js:119-123 | the `$sort` step yields a permutation (same multiset) of the array |
| Ordering.SortIsSorted | controllers/threadHandler.js:122 | the sorted reply array is ordered by `created_on` descending |
| Ordering.InsertSorted | controllers/threadHandler.js:13 | inserting into a descending sequence keeps it descending |
| Ordering.InsertKeepsDistinct | controllers/threadHandler.js:12-13 | inserting a new element keeps the elements distinct, so no thread is listed twice |
| Ordering.SortOfSorted | controllers/threadHandler.js:122 | re-sorting an already sorted array leaves it unchanged |
| Ordering.PushNewest | controllers/threadHandler.js:119-123 | pushing a strictly newest element and re-sorting just puts it at the head |
| ThreadHandler.IndexOfReply | controllers/threadHandler.js:175 | finds the first reply with the given id, or reports that none has it |
| ThreadHandler.Preview | controllers/threadHandler.js:12 | the `$slice: 3` projection keeps a prefix of the replies: the first three, or all of them when there are fewer; no other field changes |
| ThreadHandler.Page | controllers/threadHandler.js:12-14 | `limit(10)` keeps the first ten threads of the sorted sequence, or all when there are fewer, each with its preview |
| ThreadHandler.RankBoard | controllers/threadHandler.js:12-13 | collects every thread of the board exactly once, ordered by `bumped_on` descending |
| ThreadHandler.RankingPage | controllers/threadHandler.js:12-14 | the first ten of such a ranking, each cut to three replies, are a listing: only that board, no repeats, newest bump first, and no omitted thread bumped later than a shown one |
| ThreadHandler.GetThreads | controllers/threadHandler.js:7-19 | an empty board fails with "board name is a required field"; otherwise the result is a listing of at most 10 threads of that board, most recently bumped first, each with at most its first 3 replies |
| ThreadHandler.CreateThread | controllers/threadHandler.js:21-42 | the first missing field of text, board and password is reported with its message and nothing changes; otherwise exactly one thread is added, carrying the board and text, unreported, with no replies, and a digest of the secret |
| ThreadHandler.ReportThread | controllers/threadHandler.js:44-62 | a missing id and an unknown id fail with their messages and change nothing; an existing thread becomes reported, is bumped, "success" is returned, and no other thread changes |
| ThreadHandler.DeleteThread | controllers/threadHandler.js:64-83 | id and password are required in that order; a missing thread is a fault; the thread is removed exactly when the password matches its digest, and no other thread changes; otherwise "incorrect password" and nothing changes |
| ThreadHandler.GetReplysList | controllers/threadHandler.js:85-94 | a missing id fails; otherwise the stored thread with all its replies, or `null` when there is none |
| ThreadHandler.CreateReply | controllers/threadHandler.js:96-133 | text, then password, are required; with no matching thread the result is `null` and nothing changes; otherwise `replycount` and the reply count both grow by exactly one, the new reply is added, replies stay sorted by `created_on` descending, other threads are unchanged, and the pre-update document is returned |
| ThreadHandler.NewReply | controllers/threadHandler.js:102-113 | the new reply has a fresh id and creation time from the current tick, the request's text, is unreported, and its digest verifies against its own secret only |
| ThreadHandler.AddReply | controllers/threadHandler.js:115-124 | the update raises `replycount` by one, adds exactly the new reply to the array, leaves the array sorted by `created_on` descending, stamps `bumped_on` and changes nothing else |
| ThreadHandler.FlagReply | controllers/threadHandler.js:143-145 | the positional update flags exactly the addressed reply, keeps every other reply, stamps `bumped_on` and changes nothing else |
| ThreadHandler.RedactReply | controllers/threadHandler.js:178-182 | the positional update replaces exactly the addressed reply's text by "[deleted]", keeps every other reply and field of that reply, stamps `bumped_on` and changes nothing else |
| ThreadHandler.ReportReply | controllers/threadHandler.js:135-157 | thread id, then reply id, are required; it succeeds exactly when the thread holds the reply; only that reply becomes reported, the other replies and the thread's fields stay as they were apart from the bump; otherwise "cannot report this reply" and nothing changes |
| ThreadHandler.DeleteReply | controllers/threadHandler.js:159-193 | ids, then password, are required; a missing thread or reply is a fault; on a match with the reply's own digest only that reply's text becomes "[deleted]" (its id, time, flag, digest, the reply count and `replycount` are kept); otherwise "incorrect password" and nothing changes |
| StoreInvariant.Valid | models/Thread.js:5-20 | every stored thread has non-empty board and text, `replycount` equal to its number of replies, replies newest first, `created_on <= bumped_on` with every reply strictly after creation and no later than the bump, ids older than the clock, and reply ids unique across the collection |
| StoreInvariant.Initial | models/Thread.js:39 | the empty `Threads` collection satisfies the store invariant |
| StoreInvariant.CreateThreadKeepsValid | controllers/threadHandler.js:21-42 | creating a thread keeps the invariant, uses a fresh id and adds exactly one thread |
| StoreInvariant.ReportThreadKeepsValid | controllers/threadHandler.js:49-53 | reporting a thread keeps the invariant |
| StoreInvariant.DeleteThreadKeepsValid | controllers/threadHandler.js:72-76 | deleting a thread keeps the invariant |
| StoreInvariant.CreateReplyKeepsValid | controllers/threadHandler.js:107-129 | adding a reply keeps the invariant: count equals the replies, order newest first, bump strictly after creation, reply ids unique |
| StoreInvariant.ReportReplyKeepsValid | controllers/threadHandler.js:143-149 | reporting a reply keeps the invariant |
| StoreInvariant.DeleteReplyKeepsValid | controllers/threadHandler.js:170-182 | redacting a reply keeps the invariant, in particular `replycount` is not decremented |
| StoreInvariant.AddReplyPrepends | controllers/threadHandler.js:115-125 | on a valid store the re-sorting push only puts the new reply in front of the existing ones |
| HandlerProperties.ListingBounds | controllers/threadHandler.js:11-14 | a listing has at most 10 threads, all of the requested board, each with at most 3 replies |
| HandlerProperties.PreviewKeepsNewest | controllers/threadHandler.js:12 | the reply preview is the first `min(3, n)` replies, leaves the other fields alone, and every dropped reply is no newer than every kept one |
| HandlerProperties.CreateThenListed | controllers/threadHandler.js:21-42 | after creating a thread on a board, every listing of that board contains it with its text |
| HandlerProperties.CreateThenDelete | controllers/threadHandler.js:64-83 | deleting a just-created thread succeeds exactly with its own secret and then restores the previous collection; any other secret gives "incorrect password" and changes nothing |
| HandlerProperties.DeletedThreadGone | controllers/threadHandler.js:75 | after a successful delete the thread reads as `null` and appears in no listing |
| HandlerProperties.ReportThreadIdempotent | controllers/threadHandler.js:49-55 | reporting a thread again succeeds, keeps it reported and changes only its bump time |
| HandlerProperties.CreateReplyOnValid | controllers/threadHandler.js:96-129 | on a valid store a new reply is first, carries its text and a fresh id, is unreported, verifies only against its own secret, the count matches the replies, and the thread's bump is strictly after its creation |
| HandlerProperties.RedactNewest | controllers/threadHandler.js:170-189 | redacting the newest reply succeeds exactly when the secret matches that reply's digest, replaces only its text, and otherwise changes nothing |
| HandlerProperties.ReplyThenDelete | controllers/threadHandler.js:159-193 | redacting a just-posted reply succeeds exactly with that reply's own secret; its text becomes "[deleted]" while the other replies and the count stay; otherwise the text is untouched |
| HandlerProperties.DeleteReplyUsesReplySecret | controllers/threadHandler.js:172-176 | whether a reply is redacted depends only on the reply's digest; the thread's password does not redact a reply |
| HandlerProperties.RedactionTargetsLoadedThread | controllers/threadHandler.js:178 | on a valid store the thread the handler loaded is the only thread that holds the reply id, so the update filtered by reply id alone lands there |
| HandlerProperties.ReportReplyIdempotent | controllers/threadHandler.js:143-151 | reporting a reply again succeeds and changes only the thread's bump time |
| HandlerProperties.BumpAfterCreate | models/Thread.js:15-18 | in every reachable store `created_on <= bumped_on`, strictly once the thread has a reply |
| HandlerProperties.Session | controllers/threadHandler.js:21-193 | a whole session: post, reply, fail to redact with the thread's password, redact with the reply's, delete the thread, and the thread reads as `null` |

## Left out

- HTTP routing, request parsing, redirects and status codes (`routes/api.js`). The model starts from parameters already extracted from the request.
- Casting of id strings to ObjectIds. A malformed or empty-string id makes Mongoose throw a CastError. The model has no malformed ids: every id it receives is well formed and either present or absent.
- ThreadHandler.CreateReply: an absent or empty `thread_id` is modelled as matching no thread, so the model returns `null` and changes nothing. The handler has no check for it. An empty string makes Mongoose throw a CastError. For `undefined` the result depends on how Mongoose casts the filter, and it may reach an arbitrary thread.
- Hashing.Hash: bcrypt compares only the first 72 bytes of a secret, so two secrets that agree on those bytes match the same digest. The model's `Hash` is an idealisation: deterministic, unsalted and injective. The "exactly with its own secret" clauses of `HandlerProperties.CreateThenDelete` and `HandlerProperties.ReplyThenDelete` rest on it, and they hold for bcrypt only for secrets of at most 72 bytes.
- bcrypt internals: salt generation, the cost factor of 13 rounds, timing, and sync versus async hashing.
- The pre-save hook's branch for an unmodified password (models/Thread.js:25) is not reached from the handler. The handler saves only new documents, and every later write is an update query, which does not run the save hook.
- The `"cannot delete this reply"` branch of `deleteReply`. `updateOne` always resolves to a result object, which is truthy, so the branch cannot be reached.
- Store and connection failures that the handler's `try`/`catch` blocks rethrow, and the `console.log` of the error in `reportThread`.
- Concurrency and atomicity of the store updates. Every operation is one atomic step.
- The text of Mongoose's validation error, reduced to one fixed message. `createThread` checks the same fields first, so the message cannot surface from the handler.
- ThreadHandler.GetThreads: threads with equal `bumped_on` may be listed in any order, because MongoDB leaves the order of equal sort keys unspecified.
