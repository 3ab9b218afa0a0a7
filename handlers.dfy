/** The route handlers of routes/mailbox.js and routes/email.js as methods
    of one mutable store object. The store holds the mailboxes and emails
    collections, the clock read by `new Date()` and the counter that hands
    out fresh ids; the users collection is only read here. Each state-
    changing handler is proved against the functions of Store and FanOut,
    and each read-only selection is a function of the store. */
module Handlers {
  import opened Records
  import opened Timeline
  import opened Paging
  import opened Store
  import opened FanOut

  /** What the delete route answers, and the emails collection it leaves
      behind (routes/email.js:113-149). The checks run in the source's
      order: the requester's user record and mailbox must exist (otherwise
      the handler throws), then the email must exist, then it must lie in
      the mailbox the request claims as the requester's. */
  function DeleteOutcome(users: seq<User>, db: Db, requesterId: UserId, claimedMailbox: MailboxId,
                         id: MessageId): (Reply<()>, seq<Message>)
  {
    match FindUserById(users, requesterId)
    case None => (Aborted, db.messages)
    case Some(u) =>
      if FindMailbox(db.mailboxes, ByUserId(u.id)).None? then (Aborted, db.messages)
      else
        match IndexOfId(db.messages, id)
        case None => (NotFound, db.messages)
        case Some(i) =>
          if db.messages[i].mailbox != claimedMailbox then (Unauthorized, db.messages)
          else (Ok(()), Without(db.messages, i))
  }

  /** A delete removes a record exactly when the requester and their mailbox
      exist and the email exists in the claimed mailbox; it then removes
      that one record and keeps every other. Otherwise it aborts when the
      requester or their mailbox is missing, answers not found when no email
      has the id, and answers unauthorized when the email lies in another
      mailbox; any refusal changes nothing. */
  lemma DeleteSpec(users: seq<User>, db: Db, requesterId: UserId, claimedMailbox: MailboxId, id: MessageId)
    requires UniqueIds(db.messages)
    ensures var (reply, after) := DeleteOutcome(users, db, requesterId, claimedMailbox, id);
      && (reply.Ok? <==>
            && FindUserById(users, requesterId).Some?
            && FindMailbox(db.mailboxes, ByUserId(requesterId)).Some?
            && (exists m :: m in db.messages && m.id == id && m.mailbox == claimedMailbox))
      && (!reply.Ok? ==> after == db.messages)
      && (reply.Ok? ==>
            && |after| == |db.messages| - 1
            && UniqueIds(after)
            && (forall m :: m in after ==> m.id != id)
            && (forall m :: m in db.messages && m.id != id ==> m in after))
      && (reply.Aborted? <==>
            FindUserById(users, requesterId).None? || FindMailbox(db.mailboxes, ByUserId(requesterId)).None?)
      && (reply.NotFound? <==>
            && FindUserById(users, requesterId).Some?
            && FindMailbox(db.mailboxes, ByUserId(requesterId)).Some?
            && forall m :: m in db.messages ==> m.id != id)
      && (reply.Unauthorized? <==>
            && FindUserById(users, requesterId).Some?
            && FindMailbox(db.mailboxes, ByUserId(requesterId)).Some?
            && (exists m :: m in db.messages && m.id == id)
            && forall m :: m in db.messages && m.id == id ==> m.mailbox != claimedMailbox)
  {
    var (reply, after) := DeleteOutcome(users, db, requesterId, claimedMailbox, id);
    var idx := IndexOfId(db.messages, id);
    if idx.Some? {
      var i := idx.value;
      forall m | m in db.messages && m.id == id ensures m == db.messages[i] {
        var j :| 0 <= j < |db.messages| && db.messages[j] == m;
      }
      if reply.Ok? {
        forall m | m in db.messages && m.id != id ensures m in after {
          assert m != db.messages[i];
          assert multiset(after) == multiset(db.messages) - multiset{db.messages[i]};
          assert m in multiset(db.messages);
        }
      }
    }
  }

  /** The window the paged listings answer, computed as the handlers do:
      the fetch of limit + 1 records past the skipped ones from the sorted
      folder, the page count from the folder's count, the page check, and
      the start and end indices from the number of records fetched. */
  method PageWindow<T>(sorted: seq<T>, totalEmails: nat, page: int, limit: int) returns (reply: Reply<Page<T>>)
    requires page >= 1 && limit >= 1 && totalEmails == |sorted|
    ensures reply == WindowedPage(sorted, page, limit)
  {
    var skip := (page - 1) * limit;
    MulMonotone(0, page - 1, limit);
    var fetched := Fetch(sorted, skip, limit + 1);
    var totalPages := CeilDiv(totalEmails, limit);
    if page > totalPages {
      return PageNotFound;
    }
    var startIndex := -1;
    if |fetched| > 0 {
      startIndex := skip + 1;
    }
    var endIndex: Option<int> := None;
    if |fetched| > 0 {
      endIndex := Some(startIndex + |fetched| - 1);
    }
    reply := Ok(Page(DropLast(fetched), totalEmails, startIndex, endIndex));
  }

  class MailStore {
    /** The users collection, which the mail routes only read. */
    const users: seq<User>
    var mailboxes: seq<Mailbox>
    var messages: seq<Message>
    var clock: nat
    var nextId: nat

    /** The store's state as a value, for the specification functions. */
    function State(): Db
      reads this
    {
      Db(mailboxes, messages, clock, nextId)
    }

    ghost predicate Valid()
      reads this
    {
      WellFormed(State())
    }

    /** An empty store over the given users. */
    constructor (users: seq<User>)
      ensures this.users == users && State() == Db([], [], 0, 0)
      ensures Valid()
    {
      this.users := users;
      mailboxes := [];
      messages := [];
      clock := 0;
      nextId := 0;
    }

    // ------------------------------------------------------------ saves

    /** `new MailboxModel({ userId: key }).save()`. */
    method InsertMailbox(key: OwnerKey) returns (mb: Mailbox)
      modifies this
      ensures (mb, State()) == AddMailbox(old(State()), key)
    {
      mb := Mailbox(nextId, key);
      mailboxes := mailboxes + [mb];
      nextId := nextId + 1;
    }

    /** `new EmailModel({ ..., timestamp: new Date() }).save()`. */
    method SaveMessage(mailbox: MailboxId, from: Address, to: seq<Address>, subject: string,
                       content: string, isRead: bool)
      modifies this
      ensures State() == AddMessage(old(State()), mailbox, from, to, subject, content, isRead)
    {
      var m := Message(nextId, mailbox, from, to, subject, content, clock, isRead);
      messages := messages + [m];
      clock := clock + 1;
      nextId := nextId + 1;
    }

    // ------------------------------------------------------ routes/mailbox.js

    /** The caller's mailbox, created when missing; also the first step of
        every other mailbox route. */
    method GetMailbox(userId: UserId) returns (mb: Mailbox)
      requires Valid()
      modifies this
      ensures (mb, State()) == GetOrCreate(old(State()), userId)
      ensures Valid()
    {
      var found := FindMailbox(mailboxes, ByUserId(userId));
      if found.Some? {
        mb := found.value;
      } else {
        mb := InsertMailbox(ByUserId(userId));
      }
      GetOrCreateSpec(old(State()), userId);
    }

    /** The shared body of /myinbox and /mysent: defaults for page and
        limit, the mailbox, the user's address, the fetch of limit + 1
        records past the skipped ones, the count, the page check and the
        start and end indices. */
    method ListFolder(userId: UserId, folder: Folder, rawPage: Option<int>, rawLimit: Option<int>)
      returns (reply: Reply<Page<Message>>)
      requires Valid() && NonNegative(rawPage) && NonNegative(rawLimit)
      modifies this
      ensures var (mb, db1) := GetOrCreate(old(State()), userId);
        && State() == db1
        && reply == PagedFolder(users, db1.messages, mb.id, userId, folder,
                                ParseOrDefault(rawPage, 1), ParseOrDefault(rawLimit, 10))
      ensures Valid()
    {
      var page := ParseOrDefault(rawPage, 1);
      var limit := ParseOrDefault(rawLimit, 10);
      var mb := GetMailbox(userId);
      var user := FindUserById(users, userId);
      if user.None? {
        return NotFound;
      }
      var query := FolderQuery(folder, mb.id, user.value.email);
      reply := PageWindow(Listing(messages, query), Count(messages, query), page, limit);
    }

    /** GET /myinbox: records of the caller's mailbox addressed to the
        caller, newest first, one page at a time. */
    method MyInbox(userId: UserId, rawPage: Option<int>, rawLimit: Option<int>)
      returns (reply: Reply<Page<Message>>)
      requires Valid() && NonNegative(rawPage) && NonNegative(rawLimit)
      modifies this
      ensures var (mb, db1) := GetOrCreate(old(State()), userId);
        && State() == db1
        && reply == PagedFolder(users, db1.messages, mb.id, userId, InboxFolder,
                                ParseOrDefault(rawPage, 1), ParseOrDefault(rawLimit, 10))
      ensures Valid()
    {
      reply := ListFolder(userId, InboxFolder, rawPage, rawLimit);
    }

    /** GET /mysent: records of the caller's mailbox sent from the caller's
        address, newest first, one page at a time. */
    method MySent(userId: UserId, rawPage: Option<int>, rawLimit: Option<int>)
      returns (reply: Reply<Page<Message>>)
      requires Valid() && NonNegative(rawPage) && NonNegative(rawLimit)
      modifies this
      ensures var (mb, db1) := GetOrCreate(old(State()), userId);
        && State() == db1
        && reply == PagedFolder(users, db1.messages, mb.id, userId, SentFolder,
                                ParseOrDefault(rawPage, 1), ParseOrDefault(rawLimit, 10))
      ensures Valid()
    {
      reply := ListFolder(userId, SentFolder, rawPage, rawLimit);
    }

    /** GET /myinbox/unread: unread records of the caller's mailbox, newest
        first, skipping `startAfter` (default 0) and taking at most
        `length` (default 10). */
    method MyUnread(userId: UserId, rawLength: Option<int>, rawStartAfter: Option<int>)
      returns (emails: seq<Message>)
      requires Valid() && NonNegative(rawLength) && NonNegative(rawStartAfter)
      modifies this
      ensures var (mb, db1) := GetOrCreate(old(State()), userId);
        && State() == db1
        && emails == UnreadWindow(db1.messages, mb.id, ParseOrDefault(rawStartAfter, 0), ParseOrDefault(rawLength, 10))
      ensures Valid()
    {
      var length := ParseOrDefault(rawLength, 10);
      var startAfter := ParseOrDefault(rawStartAfter, 0);
      var mb := GetMailbox(userId);
      emails := Fetch(Listing(messages, Unread(mb.id)), startAfter, length);
    }

    /** GET /myinbox/length: the number of records in the caller's mailbox. */
    method InboxLength(userId: UserId) returns (length: nat)
      requires Valid()
      modifies this
      ensures var (mb, db1) := GetOrCreate(old(State()), userId);
        State() == db1 && length == Count(db1.messages, InMailbox(mb.id))
      ensures Valid()
    {
      var mb := GetMailbox(userId);
      length := Count(messages, InMailbox(mb.id));
    }

    /** GET /myinbox/unread_count: the number of unread records in the
        caller's mailbox, never more than its length. */
    method UnreadCount(userId: UserId) returns (length: nat)
      requires Valid()
      modifies this
      ensures var (mb, db1) := GetOrCreate(old(State()), userId);
        && State() == db1 && length == Count(db1.messages, Unread(mb.id))
        && length <= Count(db1.messages, InMailbox(mb.id))
      ensures Valid()
    {
      var mb := GetMailbox(userId);
      length := Count(messages, Unread(mb.id));
      UnreadAtMostLength(messages, mb.id);
    }

    /** POST /send: one unread copy per recipient in the recipient's
        mailbox, then the sender's read copy, or an abort part-way with the
        copies already saved left in place. */
    method Send(senderId: UserId, content: string, subject: string, to: seq<Address>, from: Address)
      returns (reply: Reply<()>)
      requires Valid()
      modifies this
      ensures (reply, State()) == SendOutcome(users, old(State()), senderId, content, subject, to, from)
      ensures Valid()
    {
      var senderUser := FindUserById(users, senderId);
      var complete := DeliverAll(to, from, subject, content);
      if !complete {
        return Aborted;
      }
      var senderBox := GetMailbox(senderId);
      if senderUser.None? {
        return Aborted;
      }
      SaveMessage(senderBox.id, senderUser.value.email, to, subject, content, true);
      SendShape(users, old(State()), senderId, content, subject, to, from);
      reply := Ok(());
    }

    /** The loop of the send route over the recipient list; answers false
        when it stops at a recipient without a user record. */
    method DeliverAll(to: seq<Address>, from: Address, subject: string, content: string)
      returns (complete: bool)
      requires Valid()
      modifies this
      ensures (State(), complete) == Deliver(users, old(State()), to, from, subject, content)
      ensures Valid()
    {
      var i := 0;
      while i < |to|
        invariant 0 <= i <= |to|
        invariant Valid()
        invariant Deliver(users, State(), to[i..], from, subject, content)
               == Deliver(users, old(State()), to, from, subject, content)
      {
        var recipient := FindUserByEmail(users, to[i]);
        if recipient.None? {
          assert to[i..] != [] && to[i..][0] == to[i];
          return false;
        }
        assert to[i..][0] == to[i] && to[i..][1..] == to[i + 1..];
        DeliverTo(recipient.value, to[i], from, subject, content);
        i := i + 1;
      }
      assert to[i..] == [];
      complete := true;
    }

    /** One turn of the send loop for a recipient with user record `u`:
        the recipient's mailbox by user id, or a new one keyed by the
        address, then the unread copy addressed to that recipient alone. */
    method DeliverTo(u: User, address: Address, from: Address, subject: string, content: string)
      requires Valid()
      modifies this
      ensures State() == DeliverOne(old(State()), u, address, from, subject, content)
      ensures Valid()
    {
      var found := FindMailbox(mailboxes, ByUserId(u.id));
      var box;
      if found.Some? {
        box := found.value;
      } else {
        box := InsertMailbox(ByEmail(address));
      }
      SaveMessage(box.id, from, [address], subject, content, false);
      DeliverOneShape(old(State()), u, address, from, subject, content);
    }

    // -------------------------------------------------------- routes/email.js

    /** GET /:emailId?: every record newest first, or the record with the
        given id. */
    function GetEmails(emailId: Option<MessageId>): (r: seq<Message>)
      reads this
      ensures SortedDesc(r)
      ensures emailId.None? ==> |r| == |messages| && multiset(r) == multiset(messages)
      ensures emailId.None? ==> forall m :: m in r <==> m in messages
      ensures emailId.Some? ==> forall m :: m in r <==> m in messages && m.id == emailId.value
    {
      match emailId
      case None =>
        SelectAll(messages);
        Listing(messages, All)
      case Some(id) => Listing(messages, ById(id))
    }

    /** PUT /:emailId/mark-as-read: sets the read flag and answers the
        record as it was before the update. */
    method MarkAsRead(id: MessageId) returns (reply: Reply<Message>)
      requires Valid()
      modifies this
      ensures messages == SetReadState(old(messages), id, true)
      ensures mailboxes == old(mailboxes) && clock == old(clock) && nextId == old(nextId)
      ensures match IndexOfId(old(messages), id)
              case None => reply == NotFound
              case Some(i) => reply == Ok(old(messages)[i])
      ensures Valid()
    {
      SetReadStateWellFormed(State(), id, true);
      var found := IndexOfId(messages, id);
      if found.None? {
        return NotFound;
      }
      var before := messages[found.value];
      messages := messages[found.value := before.(isRead := true)];
      reply := Ok(before);
    }

    /** PUT /:emailId/mark-as-unread: clears the read flag and answers the
        record as it is after the update. */
    method MarkAsUnread(id: MessageId) returns (reply: Reply<Message>)
      requires Valid()
      modifies this
      ensures messages == SetReadState(old(messages), id, false)
      ensures mailboxes == old(mailboxes) && clock == old(clock) && nextId == old(nextId)
      ensures match IndexOfId(old(messages), id)
              case None => reply == NotFound
              case Some(i) => reply == Ok(messages[i]) && !reply.value.isRead
      ensures Valid()
    {
      SetReadStateWellFormed(State(), id, false);
      var found := IndexOfId(messages, id);
      if found.None? {
        return NotFound;
      }
      var after := messages[found.value].(isRead := false);
      messages := messages[found.value := after];
      reply := Ok(after);
    }

    /** GET /next/:emailId: the record with the least timestamp above the
        given record's, from the whole collection, or none. */
    function Next(id: MessageId): (r: Reply<Option<Message>>)
      reads this
      ensures r.Ok? || r.NotFound?
      ensures r.NotFound? <==> forall j :: 0 <= j < |messages| ==> messages[j].id != id
      ensures r.Ok? ==> var t := messages[IndexOfId(messages, id).value].timestamp;
        && (r.value.None? <==> forall j :: 0 <= j < |messages| ==> messages[j].timestamp <= t)
        && (r.value.Some? ==>
              && r.value.value in messages && r.value.value.timestamp > t
              && forall j :: 0 <= j < |messages| && messages[j].timestamp > t ==>
                   r.value.value.timestamp <= messages[j].timestamp)
    {
      match IndexOfId(messages, id)
      case None => NotFound
      case Some(i) => Ok(LeastAbove(messages, messages[i].timestamp))
    }

    /** GET /prev/:emailId: the record with the greatest timestamp below the
        given record's, from the whole collection, or none. */
    function Prev(id: MessageId): (r: Reply<Option<Message>>)
      reads this
      ensures r.Ok? || r.NotFound?
      ensures r.NotFound? <==> forall j :: 0 <= j < |messages| ==> messages[j].id != id
      ensures r.Ok? ==> var t := messages[IndexOfId(messages, id).value].timestamp;
        && (r.value.None? <==> forall j :: 0 <= j < |messages| ==> messages[j].timestamp >= t)
        && (r.value.Some? ==>
              && r.value.value in messages && r.value.value.timestamp < t
              && forall j :: 0 <= j < |messages| && messages[j].timestamp < t ==>
                   r.value.value.timestamp >= messages[j].timestamp)
    {
      match IndexOfId(messages, id)
      case None => NotFound
      case Some(i) => Ok(GreatestBelow(messages, messages[i].timestamp))
    }

    /** DELETE /delete/:emailId, with `claimedMailbox` standing for the
        mailbox id the request carries for the requester. */
    method Delete(requesterId: UserId, claimedMailbox: MailboxId, id: MessageId) returns (reply: Reply<()>)
      requires Valid()
      modifies this
      ensures (reply, messages) == DeleteOutcome(users, old(State()), requesterId, claimedMailbox, id)
      ensures mailboxes == old(mailboxes) && clock == old(clock) && nextId == old(nextId)
      ensures Valid()
    {
      var email := IndexOfId(messages, id);
      var user := FindUserById(users, requesterId);
      if user.None? {
        return Aborted;
      }
      var mailbox := FindMailbox(mailboxes, ByUserId(user.value.id));
      if mailbox.None? {
        return Aborted;
      }
      if email.None? {
        return NotFound;
      }
      if messages[email.value].mailbox != claimedMailbox {
        return Unauthorized;
      }
      WithoutWellFormed(State(), email.value);
      messages := Without(messages, email.value);
      reply := Ok(());
    }
  }

  /** In a well-formed store, asking for one id answers the one record with
      that id, or nothing. */
  lemma GetEmailById(store: MailStore, id: MessageId)
    requires store.Valid()
    ensures store.GetEmails(Some(id))
      == if IndexOfId(store.messages, id).Some? then [store.messages[IndexOfId(store.messages, id).value]] else []
  {
    SelectById(store.messages, id);
  }

  /** Stepping to the next record and back from there lands on a record
      with the starting record's timestamp (the starting record itself
      unless several records share that timestamp). */
  lemma NextThenPrevStore(store: MailStore, id: MessageId)
    requires store.Valid()
    requires store.Next(id).Ok? && store.Next(id).value.Some?
    ensures var n := store.Next(id).value.value;
      && store.Prev(n.id).Ok? && store.Prev(n.id).value.Some?
      && store.Prev(n.id).value.value.timestamp == store.messages[IndexOfId(store.messages, id).value].timestamp
  {
    var s := store.messages;
    var k := IndexOfId(s, id).value;
    var n := store.Next(id).value.value;
    var j :| 0 <= j < |s| && s[j] == n;
    assert IndexOfId(s, n.id) == Some(j);
    NextThenPrev(s, k);
  }
}
