/** The document store the routes work on, as a value: the mailboxes and
    emails collections, the clock that `new Date()` reads and the source of
    fresh ObjectIds. The query documents the routes pass to `find`,
    `findOne` and `countDocuments`, and the single-document updates, are
    functions over it. */
module Store {
  import opened Records
  import opened Timeline
  import opened Paging

  datatype Db = Db(mailboxes: seq<Mailbox>, messages: seq<Message>, clock: nat, nextId: nat)

  /** No two records of `s` share an id. */
  predicate UniqueIds(s: seq<Message>) {
    forall i, j :: 0 <= i < |s| && 0 <= j < |s| && s[i].id == s[j].id ==> i == j
  }

  /** At most one mailbox per owning user id. Mailboxes keyed by an email
      string are not covered: the send route creates one of those each time
      it finds no mailbox for a recipient's user id. */
  predicate OneMailboxPerUser(mbs: seq<Mailbox>) {
    forall i, j :: 0 <= i < |mbs| && 0 <= j < |mbs| && mbs[i].owner.ByUserId? && mbs[i].owner == mbs[j].owner ==> i == j
  }

  /** What the store guarantees between requests: ids are unique and below
      the next fresh id, every stored timestamp is in the past, and no user
      owns two mailboxes. */
  predicate WellFormed(db: Db) {
    && OneMailboxPerUser(db.mailboxes)
    && (forall i, j :: 0 <= i < |db.mailboxes| && 0 <= j < |db.mailboxes| && db.mailboxes[i].id == db.mailboxes[j].id ==> i == j)
    && (forall i :: 0 <= i < |db.mailboxes| ==> db.mailboxes[i].id < db.nextId)
    && UniqueIds(db.messages)
    && (forall i :: 0 <= i < |db.messages| ==> db.messages[i].id < db.nextId && db.messages[i].timestamp < db.clock)
  }

  // ---------------------------------------------------------------- lookups

  /** The position of the first element satisfying `p`: what `findOne`
      returns when several documents match. */
  function FirstIndex<T>(s: seq<T>, p: T -> bool): (r: Option<nat>)
    ensures r.None? <==> forall i :: 0 <= i < |s| ==> !p(s[i])
    ensures r.Some? ==> r.value < |s| && p(s[r.value])
    ensures r.Some? ==> forall j :: 0 <= j < r.value ==> !p(s[j])
  {
    if s == [] then None
    else if p(s[0]) then Some(0)
    else
      assert forall i :: 1 <= i < |s| ==> s[i] == s[1..][i - 1];
      match FirstIndex(s[1..], p)
      case None => None
      case Some(i) => Some(i + 1)
  }

  /** `EmailModel.findById(id)`, as a position in the collection. */
  function IndexOfId(s: seq<Message>, id: MessageId): (r: Option<nat>)
    ensures r.None? <==> forall i :: 0 <= i < |s| ==> s[i].id != id
    ensures r.Some? ==> r.value < |s| && s[r.value].id == id
    ensures r.Some? && UniqueIds(s) ==> forall j :: 0 <= j < |s| && s[j].id == id ==> j == r.value
  {
    FirstIndex(s, (m: Message) => m.id == id)
  }

  /** `MailboxModel.findOne({ userId: key })`. */
  function FindMailbox(mbs: seq<Mailbox>, key: OwnerKey): (r: Option<Mailbox>)
    ensures r.None? <==> forall i :: 0 <= i < |mbs| ==> mbs[i].owner != key
    ensures r.Some? ==> r.value in mbs && r.value.owner == key
  {
    match FirstIndex(mbs, (b: Mailbox) => b.owner == key)
    case None => None
    case Some(i) => Some(mbs[i])
  }

  /** Appending a mailbox with another key leaves every lookup of `key`
      as it was. */
  lemma FindMailboxAppend(mbs: seq<Mailbox>, b: Mailbox, key: OwnerKey)
    ensures b.owner != key ==> FindMailbox(mbs + [b], key) == FindMailbox(mbs, key)
    ensures b.owner == key && FindMailbox(mbs, key).None? ==> FindMailbox(mbs + [b], key) == Some(b)
  {
    var p := (x: Mailbox) => x.owner == key;
    var r, r' := FirstIndex(mbs, p), FirstIndex(mbs + [b], p);
    assert forall i :: 0 <= i < |mbs| ==> (mbs + [b])[i] == mbs[i];
    if r.Some? {
      assert r'.Some? && r'.value <= r.value;
    } else if b.owner == key {
      assert p((mbs + [b])[|mbs|]);
      assert r'.Some? && r'.value == |mbs|;
    }
  }

  /** `UserModel.findById(id)`. */
  function FindUserById(users: seq<User>, id: UserId): (r: Option<User>)
    ensures r.None? <==> forall i :: 0 <= i < |users| ==> users[i].id != id
    ensures r.Some? ==> r.value in users && r.value.id == id
  {
    match FirstIndex(users, (u: User) => u.id == id)
    case None => None
    case Some(i) => Some(users[i])
  }

  /** `UserModel.findOne({ email })`. */
  function FindUserByEmail(users: seq<User>, address: Address): (r: Option<User>)
    ensures r.None? <==> forall i :: 0 <= i < |users| ==> users[i].email != address
    ensures r.Some? ==> r.value in users && r.value.email == address
  {
    match FirstIndex(users, (u: User) => u.email == address)
    case None => None
    case Some(i) => Some(users[i])
  }

  // ---------------------------------------------------------------- inserts

  /** `new MailboxModel({ userId: key }).save()`. */
  function AddMailbox(db: Db, key: OwnerKey): (r: (Mailbox, Db))
    ensures r.0.owner == key && r.1.mailboxes == db.mailboxes + [r.0]
    ensures r.1.messages == db.messages && r.1.clock == db.clock && r.1.nextId == db.nextId + 1
    ensures WellFormed(db) && (key.ByEmail? || FindMailbox(db.mailboxes, key).None?) ==> WellFormed(r.1)
  {
    var mb := Mailbox(db.nextId, key);
    (mb, db.(mailboxes := db.mailboxes + [mb], nextId := db.nextId + 1))
  }

  /** `new EmailModel({ ..., timestamp: new Date() }).save()`: the record
      gets a fresh id and the current clock reading, and the clock moves on. */
  function AddMessage(db: Db, mailbox: MailboxId, from: Address, to: seq<Address>,
                      subject: string, content: string, isRead: bool): (r: Db)
    ensures |r.messages| == |db.messages| + 1 && r.messages[..|db.messages|] == db.messages
    ensures r.messages[|db.messages|] == Message(db.nextId, mailbox, from, to, subject, content, db.clock, isRead)
    ensures r.mailboxes == db.mailboxes && r.clock == db.clock + 1 && r.nextId == db.nextId + 1
    ensures WellFormed(db) ==> WellFormed(r)
  {
    var m := Message(db.nextId, mailbox, from, to, subject, content, db.clock, isRead);
    db.(messages := db.messages + [m], clock := db.clock + 1, nextId := db.nextId + 1)
  }

  /** The get-or-create block every mailbox route starts with
      (routes/mailbox.js:25-30): the user's mailbox, created if missing. */
  function GetOrCreate(db: Db, userId: UserId): (r: (Mailbox, Db))
  {
    match FindMailbox(db.mailboxes, ByUserId(userId))
    case Some(b) => (b, db)
    case None => AddMailbox(db, ByUserId(userId))
  }

  /** An existing mailbox is returned and nothing changes; otherwise exactly
      one mailbox keyed by the user id is appended. Either way the store
      stays well formed, so no user ends up with two mailboxes. */
  lemma GetOrCreateSpec(db: Db, userId: UserId)
    ensures var (mb, db') := GetOrCreate(db, userId);
      && mb.owner == ByUserId(userId) && mb in db'.mailboxes
      && db'.messages == db.messages && db'.clock == db.clock
      && (FindMailbox(db.mailboxes, ByUserId(userId)).Some? ==> db' == db)
      && (FindMailbox(db.mailboxes, ByUserId(userId)).None? ==>
            db'.mailboxes == db.mailboxes + [mb] && mb.id == db.nextId && db'.nextId == db.nextId + 1)
      && (WellFormed(db) ==> WellFormed(db'))
  {
  }

  /** Resolving the same user twice gives the same mailbox the second time
      and changes nothing more. */
  lemma GetOrCreateIdempotent(db: Db, userId: UserId)
    ensures var (mb, db') := GetOrCreate(db, userId);
      GetOrCreate(db', userId) == (mb, db')
  {
    if FindMailbox(db.mailboxes, ByUserId(userId)).None? {
      var (mb, db') := GetOrCreate(db, userId);
      FindMailboxAppend(db.mailboxes, mb, ByUserId(userId));
    }
  }

  // ---------------------------------------------------------------- queries

  /** The filter documents the routes pass to the emails collection. */
  datatype Query =
    | All                                          // {}
    | ById(id: MessageId)                          // { _id }
    | InMailbox(mailbox: MailboxId)                // { mailbox }
    | Inbox(mailbox: MailboxId, address: Address)  // { mailbox, to: { $in: [address] } }
    | Sent(mailbox: MailboxId, address: Address)   // { mailbox, from: address }
    | Unread(mailbox: MailboxId)                   // { mailbox, isRead: false }

  predicate Matches(q: Query, m: Message) {
    match q
    case All => true
    case ById(id) => m.id == id
    case InMailbox(mb) => m.mailbox == mb
    case Inbox(mb, a) => m.mailbox == mb && a in m.to
    case Sent(mb, a) => m.mailbox == mb && m.from == a
    case Unread(mb) => m.mailbox == mb && !m.isRead
  }

  /** `find(q)`: the matching records, in store order, each as often as
      it is stored. */
  function Select(s: seq<Message>, q: Query): (r: seq<Message>)
    ensures |r| <= |s|
    ensures forall i :: 0 <= i < |r| ==> Matches(q, r[i])
    ensures forall m :: m in r <==> m in s && Matches(q, m)
    ensures forall m :: multiset(r)[m] == if Matches(q, m) then multiset(s)[m] else 0
  {
    if s == [] then []
    else
      assert s == [s[0]] + s[1..];
      (if Matches(q, s[0]) then [s[0]] else []) + Select(s[1..], q)
  }

  /** `countDocuments(q)`: the number of stored records the filter
      accepts; zero exactly when it accepts none. */
  function Count(s: seq<Message>, q: Query): (r: nat)
    ensures r <= |s|
    ensures r == 0 <==> forall m :: m in s ==> !Matches(q, m)
  {
    var sel := Select(s, q);
    assert sel != [] ==> sel[0] in sel;
    |sel|
  }

  /** Saving a record adds one to the count of every filter that accepts
      it and leaves every other count as it was. */
  lemma {:induction false} CountAppend(s: seq<Message>, m: Message, q: Query)
    ensures Count(s + [m], q) == Count(s, q) + (if Matches(q, m) then 1 else 0)
  {
    if s != [] {
      assert (s + [m])[1..] == s[1..] + [m];
      CountAppend(s[1..], m, q);
    } else {
      assert [m][1..] == [];
    }
  }

  /** `find(q).sort({ timestamp: -1 })`: the matching records, each as
      often as it is stored, newest first. */
  function Listing(s: seq<Message>, q: Query): (r: seq<Message>)
    ensures SortedDesc(r) && |r| == Count(s, q)
    ensures forall m :: m in r <==> m in s && Matches(q, m)
    ensures forall m :: multiset(r)[m] == if Matches(q, m) then multiset(s)[m] else 0
  {
    SortDesc(Select(s, q))
  }

  /** Without a filter every record is selected, in store order. */
  lemma {:induction false} SelectAll(s: seq<Message>)
    ensures Select(s, All) == s
  {
    if s != [] {
      SelectAll(s[1..]);
      assert s == [s[0]] + s[1..];
    }
  }

  /** With unique ids, selecting by id gives the one record with that id,
      or nothing. */
  lemma {:induction false} SelectById(s: seq<Message>, id: MessageId)
    requires UniqueIds(s)
    ensures Select(s, ById(id)) == if IndexOfId(s, id).Some? then [s[IndexOfId(s, id).value]] else []
  {
    if s != [] {
      assert UniqueIds(s[1..]) by {
        forall i, j | 0 <= i < |s[1..]| && 0 <= j < |s[1..]| && s[1..][i].id == s[1..][j].id
          ensures i == j
        {
          assert s[i + 1].id == s[j + 1].id;
        }
      }
      SelectById(s[1..], id);
      var rest := Select(s[1..], ById(id));
      if s[0].id == id {
        assert IndexOfId(s, id) == Some(0);
      } else {
        assert IndexOfId(s, id).Some? <==> IndexOfId(s[1..], id).Some?;
        if IndexOfId(s, id).Some? {
          var i := IndexOfId(s, id).value;
          var k := IndexOfId(s[1..], id).value;
          assert s[k + 1].id == id;
          assert i == k + 1;
        }
      }
    }
  }

  /** Unread records of a mailbox are records of that mailbox, so the
      unread count never exceeds the mailbox's length. */
  lemma {:induction false} UnreadAtMostLength(s: seq<Message>, mb: MailboxId)
    ensures Count(s, Unread(mb)) <= Count(s, InMailbox(mb))
  {
    if s != [] {
      UnreadAtMostLength(s[1..], mb);
    }
  }

  /** The two folders the paged listing serves. */
  datatype Folder = InboxFolder | SentFolder

  function FolderQuery(f: Folder, mb: MailboxId, address: Address): Query {
    match f
    case InboxFolder => Inbox(mb, address)
    case SentFolder => Sent(mb, address)
  }

  /** The answer of /myinbox or /mysent once the mailbox `mb` is resolved:
      "User not found" when the caller has no user record, otherwise the
      window of the folder (routes/mailbox.js:53-93, 117-157). */
  function PagedFolder(users: seq<User>, s: seq<Message>, mb: MailboxId, userId: UserId,
                       f: Folder, page: int, limit: int): Reply<Page<Message>>
    requires page >= 1 && limit >= 1
  {
    match FindUserById(users, userId)
    case None => NotFound
    case Some(u) => WindowedPage(Listing(s, FolderQuery(f, mb, u.email)), page, limit)
  }

  /** A page of a newest-first folder is itself newest first and holds
      only records of the folder. */
  lemma SortedPage(sorted: seq<Message>, page: int, limit: int)
    requires page >= 1 && limit >= 1
    requires SortedDesc(sorted)
    requires WindowedPage(sorted, page, limit).Ok?
    ensures SortedDesc(WindowedPage(sorted, page, limit).value.messages)
    ensures forall m :: m in WindowedPage(sorted, page, limit).value.messages ==> m in sorted
  {
    WindowedPageSlice(sorted, page, limit);
    var skip := (page - 1) * limit;
    var shown := WindowedPage(sorted, page, limit).value.messages;
    SortedSlice(sorted, skip, skip + |shown|);
  }

  /** Every record on a page of a listing matches its query, comes from
      the collection, and the page is newest first. */
  lemma ListingPageMembers(s: seq<Message>, q: Query, page: int, limit: int)
    requires page >= 1 && limit >= 1
    requires WindowedPage(Listing(s, q), page, limit).Ok?
    ensures var shown := WindowedPage(Listing(s, q), page, limit).value.messages;
      && SortedDesc(shown)
      && forall m :: m in shown ==> m in s && Matches(q, m)
  {
    SortedPage(Listing(s, q), page, limit);
  }

  /** Every record on an inbox page lies in the caller's mailbox and is
      addressed to the caller; every record on a sent page lies in the
      caller's mailbox and is from the caller; either way newest first. */
  lemma PagedFolderMembers(users: seq<User>, s: seq<Message>, mb: MailboxId, userId: UserId,
                           f: Folder, page: int, limit: int)
    requires page >= 1 && limit >= 1
    requires PagedFolder(users, s, mb, userId, f, page, limit).Ok?
    ensures FindUserById(users, userId).Some?
    ensures var address := FindUserById(users, userId).value.email;
      var shown := PagedFolder(users, s, mb, userId, f, page, limit).value.messages;
      && SortedDesc(shown)
      && forall m :: m in shown ==>
           && m in s && m.mailbox == mb
           && (f == InboxFolder ==> address in m.to)
           && (f == SentFolder ==> m.from == address)
  {
    var u := FindUserById(users, userId).value;
    var q := FolderQuery(f, mb, u.email);
    assert PagedFolder(users, s, mb, userId, f, page, limit) == WindowedPage(Listing(s, q), page, limit);
    ListingPageMembers(s, q, page, limit);
    var shown := WindowedPage(Listing(s, q), page, limit).value.messages;
    forall m | m in shown
      ensures m in s && m.mailbox == mb
      ensures f == InboxFolder ==> u.email in m.to
      ensures f == SentFolder ==> m.from == u.email
    {
      assert Matches(q, m);
    }
  }

  /** The answer of /myinbox/unread once the mailbox is resolved:
      `find({ mailbox, isRead: false }).sort(...).skip(startAfter).limit(length)`. */
  function UnreadWindow(s: seq<Message>, mb: MailboxId, startAfter: nat, length: nat): seq<Message>
    requires length > 0
  {
    Fetch(Listing(s, Unread(mb)), startAfter, length)
  }

  /** At most `length` unread records of the mailbox, newest first, namely
      the ones that follow the first `startAfter`. */
  lemma UnreadWindowSpec(s: seq<Message>, mb: MailboxId, startAfter: nat, length: nat)
    requires length > 0
    ensures var r := UnreadWindow(s, mb, startAfter, length);
      && |r| <= length
      && |r| == (if startAfter >= Count(s, Unread(mb)) then 0 else Min(length, Count(s, Unread(mb)) - startAfter))
      && SortedDesc(r)
      && forall i :: 0 <= i < |r| ==>
           r[i] == Listing(s, Unread(mb))[startAfter + i] && r[i] in s && r[i].mailbox == mb && !r[i].isRead
  {
    var sorted := Listing(s, Unread(mb));
    var r := UnreadWindow(s, mb, startAfter, length);
    forall i | 0 <= i < |r| ensures r[i] in s && r[i].mailbox == mb && !r[i].isRead {
      assert r[i] == sorted[startAfter + i];
      assert r[i] in sorted;
    }
  }

  // ---------------------------------------------------------------- updates

  /** `findByIdAndUpdate(id, { isRead: flag })` on the emails collection. */
  function SetReadState(s: seq<Message>, id: MessageId, flag: bool): (r: seq<Message>)
    ensures |r| == |s|
    ensures forall j :: 0 <= j < |s| ==> r[j].id == s[j].id
  {
    match IndexOfId(s, id)
    case None => s
    case Some(i) => s[i := s[i].(isRead := flag)]
  }

  /** Only the record found by id changes, and only in its read flag; an
      unknown id changes nothing. */
  lemma SetReadStateFrame(s: seq<Message>, id: MessageId, flag: bool)
    ensures var r := SetReadState(s, id, flag);
      && (IndexOfId(s, id).None? ==> r == s)
      && (IndexOfId(s, id).Some? ==>
            var i := IndexOfId(s, id).value;
            && r[i] == s[i].(isRead := flag) && r[i].isRead == flag
            && forall j :: 0 <= j < |s| && j != i ==> r[j] == s[j])
  {
  }

  /** Ids are untouched by a read-state update, so lookups find the same
      record afterwards. */
  lemma IndexOfIdAfterSet(s: seq<Message>, id: MessageId, flag: bool, other: MessageId)
    ensures IndexOfId(SetReadState(s, id, flag), other) == IndexOfId(s, other)
  {
    var r := SetReadState(s, id, flag);
    var a, b := IndexOfId(r, other), IndexOfId(s, other);
    if a.Some? && b.Some? {
      var p := (m: Message) => m.id == other;
      assert forall j :: 0 <= j < a.value ==> !p(s[j]);
      assert forall j :: 0 <= j < b.value ==> !p(r[j]);
    }
  }

  /** A read-flag update keeps the store well formed: ids and timestamps
      are untouched. */
  lemma SetReadStateWellFormed(db: Db, id: MessageId, flag: bool)
    requires WellFormed(db)
    ensures WellFormed(db.(messages := SetReadState(db.messages, id, flag)))
  {
    var r := SetReadState(db.messages, id, flag);
    SetReadStateFrame(db.messages, id, flag);
    forall k | 0 <= k < |r| ensures r[k].timestamp == db.messages[k].timestamp {
    }
  }

  /** Setting the same read state twice gives the same collection as
      setting it once. */
  lemma SetReadStateIdempotent(s: seq<Message>, id: MessageId, flag: bool)
    ensures SetReadState(SetReadState(s, id, flag), id, flag) == SetReadState(s, id, flag)
  {
    IndexOfIdAfterSet(s, id, flag, id);
  }

  /** The read flag is set, not toggled: the last setter applied decides. */
  lemma SetReadStateLastWins(s: seq<Message>, id: MessageId, first: bool, second: bool)
    ensures SetReadState(SetReadState(s, id, first), id, second) == SetReadState(s, id, second)
  {
    IndexOfIdAfterSet(s, id, first, id);
  }

  /** `email.remove()`: the record at position i is taken out, every other
      record stays in its order, and with unique ids no record with its id
      is left. */
  function Without(s: seq<Message>, i: nat): (r: seq<Message>)
    requires i < |s|
    ensures |r| == |s| - 1
    ensures forall j :: 0 <= j < |r| ==> r[j] == s[if j < i then j else j + 1]
    ensures multiset(r) == multiset(s) - multiset{s[i]}
    ensures UniqueIds(s) ==> UniqueIds(r) && forall m :: m in r ==> m.id != s[i].id
  {
    assert s == s[..i] + [s[i]] + s[i + 1..];
    var r := s[..i] + s[i + 1..];
    assert forall j :: 0 <= j < |r| ==> r[j] == s[if j < i then j else j + 1];
    r
  }

  /** Taking a record out keeps the store well formed. */
  lemma WithoutWellFormed(db: Db, i: nat)
    requires WellFormed(db) && i < |db.messages|
    ensures WellFormed(db.(messages := Without(db.messages, i)))
  {
    var r := Without(db.messages, i);
    forall k | 0 <= k < |r| ensures r[k].id < db.nextId && r[k].timestamp < db.clock {
      assert r[k] == db.messages[if k < i then k else k + 1];
    }
  }
}
