# Mail store model

A Dafny model of the mailbox and message store behind the webmail
backend's two route files: `routes/mailbox.js` (the caller's mailbox, the
paged inbox and sent folders, the unread listing, the two counts and the
send fan-out) and `routes/email.js` (listing all emails or one by id,
mark-as-read, mark-as-unread, next/prev navigation by timestamp, and the
owner-checked delete).

The document store is modelled in memory. It holds a read-only sequence of
users, a sequence of mailboxes (id and owner key), a sequence of email
records, a clock that stands in for `new Date()`, and a counter that hands
out fresh ids. The route handlers are the methods of the class
`Handlers.MailStore`. Handlers that change the store are proved against
specification functions over the store value (`Store.Db`). Properties of
those functions are proved as lemmas. HTTP status codes become the
`Records.Reply` datatype:

- `Ok`
- `NotFound`
- `PageNotFound`
- `Unauthorized`
- `Aborted`: the handler throws and answers 500.

Modules, one per file:

- `records.dfy` — `Records`: the record shapes of `models/Email.js` and `models/Mailbox.js`, and the reply type.
- `timeline.dfy` — `Timeline`: newest-first order, which stands in for `.sort({ timestamp: -1 })`, and the nearest timestamp above and below a given one.
- `paging.dfy` — `Paging`: the `parseInt(x) || d` defaults, `Math.ceil`, `.skip().limit()`, `.slice(0, -1)`, and the windowed page of `/myinbox` and `/mysent`.
- `store.dfy` — `Store`: the store value, the lookups (`findOne`, `findById`), the filter documents the routes pass to `find`/`countDocuments`, get-or-create, the read-flag update and the removal.
- `fanout.dfy` — `FanOut`: the `/send` route as a function of the store, with its cardinality and per-copy lemmas.
- `handlers.dfy` — `Handlers`: the store class with one method per route, the delete decision, and the step-by-step page computation.

Behaviour of the code that the model keeps as written:

- With 15 inbox records, page 2 and limit 10, the code answers 4 records. It fetches records 11 to 15 and then drops the last one (`routes/mailbox.js:89`), while `endIndex` still says 15 (`Paging.FifteenRecordsPageTwo`). A consequence is that walking every page lists every record except the oldest one (`Paging.AllPagesMissLast`).
- A recipient address with no user record stops the send. The loop throws on `recipientUserData._id`, the send aborts, the copies already saved stay, and there is no sender copy (`FanOut.SendShape`).
- A recipient whose user has no mailbox gets a new mailbox keyed by the address string (`routes/mailbox.js:261-263`), not by the user id. Every later send to that user creates another one, until the user's own get-or-create (which every mailbox route runs first) adds the mailbox keyed by the user id; from then on the send finds that mailbox and creates nothing (`FanOut.AddressMailboxesUntilGetOrCreate`). Copies stored in the address-keyed mailboxes never appear in that user's listings or counts, which all filter on the user-id mailbox.
- next/prev look through the whole emails collection, not only the caller's mailbox.

## Model

| member | source | states |
|---|---|---|
| Timeline.Insert | routes/mailbox.js:66-67 | inserting one record into a newest-first sequence keeps it newest first, adds exactly that record (multiset) and grows it by one |
| Timeline.SortDesc | routes/mailbox.js:67 | the newest-first order used by every listing is a sorted permutation of its input |
| Timeline.SortedSlice | routes/mailbox.js:66-69 | any consecutive run of a newest-first listing (what skip/limit returns) is newest first |
| Timeline.LeastAbove | routes/email.js:75-79 | `findOne({timestamp: {$gt: t}}).sort({timestamp: 1})`: none exactly when no record is newer than t; otherwise a stored record strictly newer than t and no newer than any other record newer than t |
| Timeline.GreatestBelow | routes/email.js:100-104 | the mirror image for `$lt` with descending sort: none exactly when no record is older than t; otherwise a stored record strictly older than t and at least as new as every other such record |
| Timeline.NextThenPrev | routes/email.js:63-110 | stepping to the next record and back lands on a record with the starting timestamp |
| Paging.ParseOrDefault | routes/mailbox.js:42-43 | `parseInt(x) \|\| d`: an absent, non-numeric or zero parameter takes the default, any other value is kept; a non-negative input with a positive default yields a positive value |
| Paging.CeilDiv | routes/mailbox.js:72 | `Math.ceil(total / limit)`: the least page count whose pages hold all records; zero exactly for no records |
| Paging.PageExists | routes/mailbox.js:72-76 | with page, limit ≥ 1, a page is within the page count exactly when its skip leaves at least one record |
| Paging.Fetch | routes/mailbox.js:66-69 | `.skip(skip).limit(n)`: the records from position skip on, min(n, total - skip) of them, none when skip is past the end |
| Paging.DropLast | routes/mailbox.js:89 | `.slice(0, -1)`: every element but the last, in order; nothing for an empty array |
| Paging.WindowedPage | routes/mailbox.js:51-93 | the answer of a paged listing over the sorted folder; described by WindowedPageNotFound, EmptyFolderHasNoPage, WindowedPageOk, WindowedPageSlice, FifteenRecordsPageTwo and AllPagesMissLast, and computed step by step by Handlers.PageWindow |
| Paging.WindowedPageNotFound | routes/mailbox.js:71-76 | the page answer is Ok or "Page not found", and it is "Page not found" exactly when page > ceil(total/limit), exactly when skip ≥ total |
| Paging.EmptyFolderHasNoPage | routes/mailbox.js:71-76 | an empty folder answers "Page not found" even for page 1 |
| Paging.WindowedPageOk | routes/mailbox.js:51-93 | an answered page has skip < total, startIndex = skip + 1 (never -1), endIndex = startIndex + number of records returned, at most `limit` records, namely the ones right after the skipped ones |
| Paging.WindowedPageSlice | routes/mailbox.js:66-93 | an answered page is a contiguous run of the folder's records starting at skip |
| Paging.FifteenRecordsPageTwo | routes/mailbox.js:66-93 | 15 records, page 2, limit 10: records 11 to 14, totalEmails 15, startIndex 11, endIndex 15 |
| Paging.ShownOnPage | routes/mailbox.js:66-89 | the records an existing page returns are the folder slice from skip to min(skip + limit, total - 1) |
| Paging.ListedFromIs | routes/mailbox.js:66-89 | the pages from `page` to the last one, one after another, list the folder from that page's skip up to but excluding its last record |
| Paging.AllPagesMissLast | routes/mailbox.js:89 | reading every page of a non-empty folder lists each record once, in order, except the oldest one, which no page ever shows |
| Store.FirstIndex | routes/mailbox.js:25 | `findOne`: the first position satisfying the filter, and none exactly when no position does |
| Store.IndexOfId | routes/email.js:68 | `findById`: none exactly when no record has the id; otherwise a record with that id, the only one when ids are unique |
| Store.FindMailbox | routes/mailbox.js:25 | `MailboxModel.findOne({ userId })`: none exactly when no mailbox has that owner key, otherwise a stored mailbox with it |
| Store.FindMailboxAppend | routes/mailbox.js:25-30 | appending a mailbox with another key leaves a lookup unchanged; appending one with the key to a store that lacked it makes the lookup find it |
| Store.FindUserById | routes/mailbox.js:53 | `UserModel.findById`: none exactly when no user has the id, otherwise a stored user with it |
| Store.FindUserByEmail | routes/mailbox.js:252 | `UserModel.findOne({ email })`: none exactly when no user has the address, otherwise a stored user with it |
| Store.AddMailbox | routes/mailbox.js:29 | a save appends one mailbox with the given key and a fresh id, touches no email, and keeps the store well formed unless it would give a user a second mailbox |
| Store.AddMessage | routes/mailbox.js:267-278 | a save appends one record with a fresh id stamped with the current clock, keeps earlier records, moves the clock on, and keeps the store well formed |
| Store.GetOrCreate | routes/mailbox.js:25-30 | the caller's mailbox, found by user id or created; described by GetOrCreateSpec and GetOrCreateIdempotent |
| Store.GetOrCreateSpec | routes/mailbox.js:25-30 | an existing mailbox is returned and nothing changes; otherwise exactly one mailbox with that user id is appended; emails are untouched and "one mailbox per user" is kept |
| Store.GetOrCreateIdempotent | routes/mailbox.js:25-30 | resolving the same user again returns the same mailbox and changes nothing more |
| Store.Matches | routes/mailbox.js:61-64 | the filter documents of the routes: the inbox filter (mailbox and `to` containing the address), the sent filter (routes/mailbox.js:125-128), the unread filter (185-188, 230-233), the mailbox filter (210-212), the id filter and the empty filter; Select and Listing are proved to keep exactly the records it accepts |
| Store.Select | routes/mailbox.js:61-66 | `find(q)`: exactly the stored records that match the filter, each as often as it is stored (multiset), and none that do not |
| Store.Listing | routes/mailbox.js:66-71 | `find(q).sort({ timestamp: -1 })`: newest first, and a permutation of exactly the matching records, each as often as it is stored (multiset); its length is the count |
| Store.Count | routes/mailbox.js:71 | `countDocuments(q)`: at most the number of records, zero exactly when no record matches; Select fixes it to the number of matching records with multiplicity, and CountAppend and UnreadAtMostLength relate counts |
| Store.CountAppend | routes/mailbox.js:210-233 | saving a record adds one to the count of every filter that accepts it and leaves the others unchanged |
| Store.SelectAll | routes/email.js:17-18 | the empty filter selects every record, in store order |
| Store.SelectById | routes/email.js:17-18 | with unique ids, the `_id` filter selects the one record with that id, or nothing |
| Store.UnreadAtMostLength | routes/mailbox.js:210-233 | the unread count of a mailbox never exceeds its length |
| Store.PagedFolder | routes/mailbox.js:53-93 | the answer of /myinbox or /mysent once the mailbox is known: "User not found" without a user record, otherwise the window of the folder's listing; described by PagedFolderMembers |
| Store.SortedPage | routes/mailbox.js:66-93 | a page of a newest-first folder is newest first and holds only folder records |
| Store.ListingPageMembers | routes/mailbox.js:61-93 | every record on a page matches the route's filter, comes from the store, and the page is newest first |
| Store.PagedFolderMembers | routes/mailbox.js:61-157 | an answered inbox page holds only records of the caller's mailbox addressed to the caller; an answered sent page only records of the caller's mailbox from the caller's address; both newest first; an answer implies the user exists |
| Store.UnreadWindow | routes/mailbox.js:185-191 | the unread listing once the mailbox is known; described by UnreadWindowSpec |
| Store.UnreadWindowSpec | routes/mailbox.js:185-191 | the unread listing holds at most `length` records, exactly min(length, unread - startAfter), newest first, each one unread, in the caller's mailbox, and the ones right after the first `startAfter` |
| Store.SetReadState | routes/email.js:30-54 | the update keeps the number of records and every id |
| Store.SetReadStateFrame | routes/email.js:30-54 | an unknown id changes nothing; otherwise only the record found by id changes, and only in its read flag |
| Store.IndexOfIdAfterSet | routes/email.js:30-54 | every id lookup finds the same position after a read-flag update |
| Store.SetReadStateIdempotent | routes/email.js:30-54 | setting the same read flag twice gives the same collection as setting it once |
| Store.SetReadStateLastWins | routes/email.js:30-54 | the flag is set, not toggled: of two updates the last one decides |
| Store.Without | routes/email.js:143 | `email.remove()`: one record fewer, every other record kept in order (multiset minus exactly that record), and with unique ids none with its id is left |
| Store.SetReadStateWellFormed | routes/email.js:30-54 | a read-flag update keeps the store well formed |
| Store.WithoutWellFormed | routes/email.js:143 | removing a record keeps the store well formed |
| FanOut.FirstUnknown | routes/mailbox.js:251-256 | the loop gets through exactly the leading recipients that have a user record and stops at the first one that has none |
| FanOut.RecipientMailbox | routes/mailbox.js:255-264 | finding or creating the recipient's mailbox touches no email and keeps the store well formed |
| FanOut.DeliverOne | routes/mailbox.js:252-278 | one turn of the send loop; described by DeliverOneShape and DeliverOneCopy |
| FanOut.Deliver | routes/mailbox.js:251-279 | the send loop over the recipient list, stopping at the first unknown recipient; described by DeliverShape, DeliverFirstCopy and DeliverCopy |
| FanOut.DeliverOneShape | routes/mailbox.js:255-278 | one turn appends exactly one record, keeps earlier ones, moves the clock once, and adds at most one mailbox, keyed by the recipient's address |
| FanOut.DeliverOneCopy | routes/mailbox.js:259-278 | the record one turn appends is the recipient's copy stamped with the clock before the turn; with an existing mailbox no mailbox is added, otherwise exactly one, keyed by the address, and the copy lies in it |
| FanOut.AddressMailboxesUntilGetOrCreate | routes/mailbox.js:255-264 | for a recipient whose user has no user-id mailbox, a second send turn creates another address-keyed mailbox, but after the user's get-or-create a turn creates none |
| FanOut.RecipientCopyExtends | routes/mailbox.js:251-279 | a copy keeps its description when later turns append mailboxes |
| FanOut.FindByUserAfterEmailKeys | routes/mailbox.js:255-263 | mailboxes keyed by address strings never change which mailbox a user-id lookup finds |
| FanOut.RecipientCopyEarlier | routes/mailbox.js:251-279 | a copy described against the mailboxes after earlier turns is also described correctly against the mailboxes before the send |
| FanOut.DeliverShape | routes/mailbox.js:251-279 | the loop keeps every earlier record and mailbox, adds one record per recipient it gets through, adds only address-keyed mailboxes, completes exactly when every recipient has a user, and keeps the store well formed |
| FanOut.DeliverFirstCopy | routes/mailbox.js:251-279 | the first record the loop adds is the first recipient's copy |
| FanOut.DeliverCopy | routes/mailbox.js:251-279 | the i-th record the loop adds is the copy for the i-th recipient: unread, addressed to that recipient alone, with the client's `from`, in that user's mailbox or one created for the address |
| FanOut.DeliverCopyLater | routes/mailbox.js:251-279 | the same for i > 0, from the loop over the rest of the list |
| FanOut.DeliverCopyAfterTurn | routes/mailbox.js:251-279 | a copy the rest of the loop adds, counted from the store before the first turn, is described against the mailboxes before that turn |
| FanOut.SendOutcome | routes/mailbox.js:246-309 | the reply and final store of a send; described by SendShape, SendRecipientCopies and SenderCopy |
| FanOut.SendShape | routes/mailbox.js:246-309 | a send answers Ok or aborts; Ok exactly when every recipient and the sender have user records; it then adds k + 1 records, otherwise one per recipient before the first unknown one; earlier records and mailboxes are kept and the store stays well formed |
| FanOut.SendRecipientCopies | routes/mailbox.js:251-279 | whatever the outcome, the i-th new record is the copy for the i-th recipient, for every recipient before the first unknown one |
| FanOut.SenderCopy | routes/mailbox.js:282-303 | a successful send ends with the sender's copy: read, addressed to the full list, from the sender's stored address, same subject and content, in the sender's mailbox found or created by user id |
| Handlers.DeleteOutcome | routes/email.js:119-143 | the reply and remaining emails of a delete, with the checks in the source's order; described by DeleteSpec |
| Handlers.DeleteSpec | routes/email.js:119-143 | a delete succeeds exactly when the requester and their mailbox exist and an email with the id lies in the claimed mailbox; it then removes that one record and keeps every other; it aborts exactly when the requester's user or mailbox is missing, answers not found exactly when both exist and no email has the id, and answers unauthorized exactly when both exist and the email lies in another mailbox; any refusal leaves the collection unchanged |
| Handlers.PageWindow | routes/mailbox.js:51-93 | the step-by-step fetch, count, page check and index computation equals the windowed page of the sorted folder |
| Handlers.MailStore.constructor | models/Email.js:17 | a new store has an empty emails collection, and an empty mailboxes collection (models/Mailbox.js:11), with the given users, and is well formed |
| Handlers.MailStore.InsertMailbox | routes/mailbox.js:29 | the store after a mailbox save is the one the specification function gives |
| Handlers.MailStore.SaveMessage | routes/mailbox.js:267-278 | the store after an email save is the one the specification function gives |
| Handlers.MailStore.GetMailbox | routes/mailbox.js:22-36 | GET /: the mailbox and new state are those of get-or-create, and the store stays well formed |
| Handlers.MailStore.ListFolder | routes/mailbox.js:38-163 | the shared body of the paged folders: the state after get-or-create, and the answer is "User not found" or the windowed page of the folder with page and limit defaulted to 1 and 10 |
| Handlers.MailStore.MyInbox | routes/mailbox.js:38-99 | GET /myinbox answers the inbox folder's page of the caller's mailbox |
| Handlers.MailStore.MySent | routes/mailbox.js:102-163 | GET /mysent answers the sent folder's page of the caller's mailbox |
| Handlers.MailStore.MyUnread | routes/mailbox.js:171-197 | GET /myinbox/unread answers the unread window with length and startAfter defaulted to 10 and 0, after get-or-create |
| Handlers.MailStore.InboxLength | routes/mailbox.js:200-217 | GET /myinbox/length answers the number of records in the caller's mailbox and changes only what get-or-create changes |
| Handlers.MailStore.UnreadCount | routes/mailbox.js:220-238 | GET /myinbox/unread_count answers the number of unread records of the caller's mailbox, never more than its length |
| Handlers.MailStore.Send | routes/mailbox.js:241-309 | POST /send leaves exactly the reply and store of the fan-out function and keeps the store well formed |
| Handlers.MailStore.DeliverAll | routes/mailbox.js:251-279 | the recipient loop leaves the store the loop function gives, and reports whether it got through the whole list |
| Handlers.MailStore.DeliverTo | routes/mailbox.js:252-278 | one loop turn leaves the store that one turn of the fan-out function gives, and keeps it well formed |
| Handlers.MailStore.GetEmails | routes/email.js:15-24 | GET /:emailId?: newest first; without an id a permutation of the whole collection (multiset); with one, exactly the records with that id |
| Handlers.MailStore.MarkAsRead | routes/email.js:27-40 | an unknown id answers not found; otherwise the read flag of that record is set, nothing else changes, and the answer is the record as it was before the update; the store stays well formed |
| Handlers.MailStore.MarkAsUnread | routes/email.js:43-60 | an unknown id answers not found; otherwise the read flag is cleared, nothing else changes, and the answer is the updated, unread record; the store stays well formed |
| Handlers.MailStore.Next | routes/email.js:63-85 | not found exactly for an unknown id; otherwise none exactly when no record in the whole store is strictly newer, else a stored record strictly newer and no newer than any other such record |
| Handlers.MailStore.Prev | routes/email.js:88-110 | not found exactly for an unknown id; otherwise none exactly when no record is strictly older, else a stored record strictly older and at least as new as any other such record |
| Handlers.MailStore.Delete | routes/email.js:113-149 | the reply and remaining emails are those of the delete decision; mailboxes, clock and ids are untouched, and the store stays well formed |
| Handlers.GetEmailById | routes/email.js:17-21 | in a well-formed store, asking for an id answers the one record with that id, or nothing |
| Handlers.NextThenPrevStore | routes/email.js:63-110 | prev of next of a record is a record with the starting record's timestamp |

## Left out

- Express routing, the request-logging middleware, `handleErrors` and the JSON bodies are not modelled (`routes/mailbox.js:9-19`, `routes/email.js:9-12`, `index.js`). Status codes are the `Reply` constructors, and every path the source sends to its catch block is `Aborted`.
- Token verification is not modelled. The caller's user id is an input. `routes/auth.js`, bcrypt, Joi, JWT signing, `routes/users.js`, the validation in `models/users.js` and `db.js` are not part of this model.
- The `cc`, `bcc` and `replyTo` fields of `models/Email.js` are left out, because no core route writes or filters them. The schema defaults (`timestamp: null`, `isRead: true`) are also left out, because every save in the core sets both fields.
- Timestamps are natural numbers from a clock that moves forward on every email save (mailbox saves leave it alone). A `Date` of equal milliseconds for two saves is not modelled; equal timestamps are still allowed in the lemmas about next/prev.
- Mongo's tie order for equal timestamps is not modelled. `SortDesc` is a stable sort, and `LeastAbove`/`GreatestBelow` pick the first record in store order. The lemmas about listings and next/prev only constrain timestamps, so they hold for any tie order; the handler contracts (`reply == PagedFolder(..)`, `emails == UnreadWindow(..)`) fix the stable order of `SortDesc`.
- ObjectId casting is not modelled. The mailbox keyed by a recipient's address string (`routes/mailbox.js:261-263`) is stored as written, not rejected by the driver. An invalid `emailId` is a plain id that matches nothing, so GET answers an empty list rather than the cast error.
- Handlers.MailStore.ListFolder: requires non-negative `page` and `limit` parameters. Negative values reach `skip`/`limit` in Mongo, whose behaviour there is outside the code shown.
- Handlers.MailStore.MyInbox: requires non-negative `page` and `limit`, for the same reason.
- Handlers.MailStore.MySent: requires non-negative `page` and `limit`, for the same reason.
- Handlers.MailStore.MyUnread: requires non-negative `length` and `startAfter`, for the same reason.
- FanOut.SendRecipientCopies: for a recipient whose user has no mailbox, it states only that the copy lies in a mailbox keyed by that address and created during the send; that it is the mailbox created in the same turn is stated per turn by `FanOut.DeliverOneCopy`, and carrying it over the whole loop is not proved.
- `Math.ceil` on a floating-point quotient is modelled as exact integer ceiling division. A non-array `to` in the send body, and other malformed bodies, are not modelled.
- Concurrency is not modelled. The race between the lookup and the insert in get-or-create, and interleaved sends, are out of scope because handlers run one at a time in the model.
- Delete: `routes/email.js` never imports `UserModel`, `MailboxModel` or `handleErrors`, and `req.user.mailbox` is not in the token payload (`routes/auth.js:48`). So the route as written throws before its checks. The model applies the checks at `routes/email.js:119-143`, with the mailbox id the request claims as an input (`claimedMailbox`).
- The send's `new Date()` is read once per save, as the clock at that save. The sender's user lookup happens before the loop in the source; it only reads, so the model looks the sender up there too.
