/** The send route's fan-out (routes/mailbox.js:241-309) as a function of
    the store: one copy per recipient, in that recipient's mailbox, then one
    copy in the sender's mailbox. */
module FanOut {
  import opened Records
  import opened Store

  /** The number of leading recipients that have a user record: the loop
      gets that far before it reads `_id` of a missing user and throws. */
  function FirstUnknown(users: seq<User>, to: seq<Address>): (k: nat)
    ensures k <= |to|
    ensures forall i :: 0 <= i < k ==> FindUserByEmail(users, to[i]).Some?
    ensures k < |to| ==> FindUserByEmail(users, to[k]).None?
  {
    if to == [] || FindUserByEmail(users, to[0]).None? then 0
    else
      assert forall i :: 1 <= i < |to| ==> to[i] == to[1..][i - 1];
      1 + FirstUnknown(users, to[1..])
  }

  /** The recipient's mailbox as the loop finds it (routes/mailbox.js:255-264):
      looked up by the recipient's user id, and when missing created keyed
      by the recipient's address instead. */
  function RecipientMailbox(db: Db, userId: UserId, address: Address): (r: (Mailbox, Db))
    ensures r.1.messages == db.messages && r.1.clock == db.clock
    ensures WellFormed(db) ==> WellFormed(r.1)
  {
    match FindMailbox(db.mailboxes, ByUserId(userId))
    case Some(b) => (b, db)
    case None => AddMailbox(db, ByEmail(address))
  }

  /** One turn of the loop for recipient `address` whose user is `u`:
      stores an unread copy addressed to that recipient alone, carrying the
      `from` the client sent. */
  function DeliverOne(db: Db, u: User, address: Address, from: Address,
                      subject: string, content: string): (r: Db)
  {
    var (mb, db1) := RecipientMailbox(db, u.id, address);
    AddMessage(db1, mb.id, from, [address], subject, content, false)
  }

  /** The loop over the recipient list from `to[0]` on; the flag says
      whether it got through the whole list. */
  function Deliver(users: seq<User>, db: Db, to: seq<Address>, from: Address,
                   subject: string, content: string): (Db, bool)
    decreases |to|
  {
    if to == [] then (db, true)
    else
      match FindUserByEmail(users, to[0])
      case None => (db, false)
      case Some(u) => Deliver(users, DeliverOne(db, u, to[0], from, subject, content), to[1..], from, subject, content)
  }

  /** The whole route: the loop, then the sender's mailbox (get-or-create),
      then the sender's copy, which needs the sender's user record for its
      `from` and throws when there is none. */
  function SendOutcome(users: seq<User>, db: Db, senderId: UserId, content: string,
                       subject: string, to: seq<Address>, from: Address): (Reply<()>, Db)
  {
    var (delivered, complete) := Deliver(users, db, to, from, subject, content);
    if !complete then (Aborted, delivered)
    else
      var (mb, db1) := GetOrCreate(delivered, senderId);
      match FindUserById(users, senderId)
      case None => (Aborted, db1)
      case Some(u) => (Ok(()), AddMessage(db1, mb.id, u.email, to, subject, content, true))
  }

  /** How the copy for recipient `address` (user `u`) looks once stored:
      unread, addressed to that recipient only, with the client's `from`,
      and in the mailbox keyed by the recipient's user id if one existed
      before the send, otherwise in a mailbox keyed by the address that
      the send created. */
  predicate RecipientCopy(m: Message, address: Address, u: User, from: Address, subject: string,
                          content: string, before: seq<Mailbox>, after: seq<Mailbox>)
  {
    && m.to == [address] && !m.isRead && m.from == from
    && m.subject == subject && m.content == content
    && match FindMailbox(before, ByUserId(u.id))
       case Some(b) => m.mailbox == b.id
       case None => |before| <= |after| && Mailbox(m.mailbox, ByEmail(address)) in after[|before|..]
  }

  /** One turn appends exactly one record, moves the clock on once, and
      adds at most one mailbox, keyed by the recipient's address. */
  lemma DeliverOneShape(db: Db, u: User, address: Address, from: Address, subject: string, content: string)
    ensures var d := DeliverOne(db, u, address, from, subject, content);
      && |d.messages| == |db.messages| + 1
      && d.messages[..|db.messages|] == db.messages
      && d.clock == db.clock + 1
      && |db.mailboxes| <= |d.mailboxes| <= |db.mailboxes| + 1
      && d.mailboxes[..|db.mailboxes|] == db.mailboxes
      && (forall j :: |db.mailboxes| <= j < |d.mailboxes| ==> d.mailboxes[j].owner == ByEmail(address))
      && (WellFormed(db) ==> WellFormed(d))
  {
    var (mb, db1) := RecipientMailbox(db, u.id, address);
    if FindMailbox(db.mailboxes, ByUserId(u.id)).None? {
      assert db1.mailboxes == db.mailboxes + [mb];
    }
  }

  /** The record one turn appends is the recipient's copy, stamped with the
      current clock; when the recipient's user had no mailbox it lies in the
      one mailbox that this same turn created, keyed by the address. */
  lemma DeliverOneCopy(db: Db, u: User, address: Address, from: Address, subject: string, content: string)
    ensures var d := DeliverOne(db, u, address, from, subject, content);
      && |d.messages| == |db.messages| + 1
      && d.messages[|db.messages|].timestamp == db.clock
      && RecipientCopy(d.messages[|db.messages|], address, u, from, subject, content, db.mailboxes, d.mailboxes)
      && (FindMailbox(db.mailboxes, ByUserId(u.id)).Some? ==> d.mailboxes == db.mailboxes)
      && (FindMailbox(db.mailboxes, ByUserId(u.id)).None? ==>
            d.mailboxes == db.mailboxes + [Mailbox(d.messages[|db.messages|].mailbox, ByEmail(address))])
  {
    var (mb, db1) := RecipientMailbox(db, u.id, address);
    if FindMailbox(db.mailboxes, ByUserId(u.id)).None? {
      assert db1.mailboxes == db.mailboxes + [mb];
      assert db1.mailboxes[|db.mailboxes|..] == [mb];
    }
  }

  /** For a recipient whose user has no mailbox keyed by user id, every
      send turn creates another mailbox keyed by the address, until the
      user's own get-or-create adds the user-id mailbox; from then on a
      turn finds that one and creates nothing. */
  lemma AddressMailboxesUntilGetOrCreate(db: Db, u: User, address: Address, from: Address,
                                         subject: string, content: string)
    requires FindMailbox(db.mailboxes, ByUserId(u.id)).None?
    ensures var d1 := DeliverOne(db, u, address, from, subject, content);
      var d2 := GetOrCreate(d1, u.id).1;
      && |DeliverOne(d1, u, address, from, subject, content).mailboxes| == |d1.mailboxes| + 1
      && DeliverOne(d2, u, address, from, subject, content).mailboxes == d2.mailboxes
  {
    var d1 := DeliverOne(db, u, address, from, subject, content);
    DeliverOneCopy(db, u, address, from, subject, content);
    FindByUserAfterEmailKeys(db.mailboxes, d1.mailboxes, u.id);
    DeliverOneCopy(d1, u, address, from, subject, content);
    var (mb, d2) := GetOrCreate(d1, u.id);
    GetOrCreateSpec(d1, u.id);
    FindMailboxAppend(d1.mailboxes, mb, ByUserId(u.id));
    DeliverOneCopy(d2, u, address, from, subject, content);
  }

  /** A copy stays as described when later turns append mailboxes keyed by
      addresses: lookups by user id are not affected by them. */
  lemma RecipientCopyExtends(m: Message, address: Address, u: User, from: Address, subject: string,
                             content: string, before: seq<Mailbox>, mid: seq<Mailbox>, after: seq<Mailbox>)
    requires RecipientCopy(m, address, u, from, subject, content, before, mid)
    requires |mid| <= |after| && after[..|mid|] == mid
    ensures RecipientCopy(m, address, u, from, subject, content, before, after)
  {
    if FindMailbox(before, ByUserId(u.id)).None? {
      var b := Mailbox(m.mailbox, ByEmail(address));
      var j :| |before| <= j < |mid| && mid[j] == b;
      assert after[j] == b;
    }
  }

  /** Appending mailboxes keyed by addresses never changes which mailbox a
      user id finds. */
  lemma {:induction false} FindByUserAfterEmailKeys(before: seq<Mailbox>, after: seq<Mailbox>, userId: UserId)
    requires |before| <= |after| && after[..|before|] == before
    requires forall j :: |before| <= j < |after| ==> after[j].owner.ByEmail?
    ensures FindMailbox(after, ByUserId(userId)) == FindMailbox(before, ByUserId(userId))
    decreases |after|
  {
    if |after| > |before| {
      var init := after[..|after| - 1];
      assert init[..|before|] == before;
      FindByUserAfterEmailKeys(before, init, userId);
      assert after == init + [after[|after| - 1]];
      FindMailboxAppend(init, after[|after| - 1], ByUserId(userId));
    } else {
      assert after == before;
    }
  }

  /** A copy described against the mailboxes as they were before earlier
      turns of the loop is also described against the mailboxes as they
      were before the send, since those turns only added mailboxes keyed by
      addresses. */
  lemma RecipientCopyEarlier(m: Message, address: Address, u: User, from: Address, subject: string,
                             content: string, before: seq<Mailbox>, mid: seq<Mailbox>, after: seq<Mailbox>)
    requires |before| <= |mid| && mid[..|before|] == before
    requires forall j :: |before| <= j < |mid| ==> mid[j].owner.ByEmail?
    requires RecipientCopy(m, address, u, from, subject, content, mid, after)
    ensures RecipientCopy(m, address, u, from, subject, content, before, after)
  {
    FindByUserAfterEmailKeys(before, mid, u.id);
    if FindMailbox(before, ByUserId(u.id)).None? {
      var b := Mailbox(m.mailbox, ByEmail(address));
      var j :| |mid| <= j < |after| && after[j] == b;
      assert after[|before|..][j - |before|] == b;
    }
  }

  /** The loop keeps every record it found in place, adds one record per
      recipient up to the first unknown address (all of them when every
      address is known), moves the clock on once per record, and only ever
      adds mailboxes keyed by addresses. */
  lemma {:induction false} DeliverShape(users: seq<User>, db: Db, to: seq<Address>, from: Address,
                                        subject: string, content: string)
    ensures var (d, complete) := Deliver(users, db, to, from, subject, content);
      var k := FirstUnknown(users, to);
      && complete == (k == |to|)
      && |d.messages| == |db.messages| + k
      && d.messages[..|db.messages|] == db.messages
      && d.clock == db.clock + k
      && |db.mailboxes| <= |d.mailboxes| && d.mailboxes[..|db.mailboxes|] == db.mailboxes
      && (forall j :: |db.mailboxes| <= j < |d.mailboxes| ==> d.mailboxes[j].owner.ByEmail?)
      && (WellFormed(db) ==> WellFormed(d))
    decreases |to|
  {
    if to != [] && FindUserByEmail(users, to[0]).Some? {
      var u := FindUserByEmail(users, to[0]).value;
      var db2 := DeliverOne(db, u, to[0], from, subject, content);
      DeliverOneShape(db, u, to[0], from, subject, content);
      DeliverShape(users, db2, to[1..], from, subject, content);
      var d := Deliver(users, db, to, from, subject, content).0;
      PrefixChain(db.messages, db2.messages, d.messages);
      AddressKeyedGrowth(db.mailboxes, db2.mailboxes, d.mailboxes);
    }
  }

  /** A prefix of a prefix is a prefix. */
  lemma PrefixChain<T>(a: seq<T>, b: seq<T>, c: seq<T>)
    requires |a| <= |b| && b[..|a|] == a
    requires |b| <= |c| && c[..|b|] == b
    ensures |a| <= |c| && c[..|a|] == a
  {
    assert c[..|a|] == c[..|b|][..|a|];
  }

  /** Two rounds that each only append address-keyed mailboxes together
      only append address-keyed mailboxes. */
  lemma AddressKeyedGrowth(before: seq<Mailbox>, mid: seq<Mailbox>, after: seq<Mailbox>)
    requires |before| <= |mid| && mid[..|before|] == before
    requires forall j :: |before| <= j < |mid| ==> mid[j].owner.ByEmail?
    requires |mid| <= |after| && after[..|mid|] == mid
    requires forall j :: |mid| <= j < |after| ==> after[j].owner.ByEmail?
    ensures |before| <= |after| && after[..|before|] == before
    ensures forall j :: |before| <= j < |after| ==> after[j].owner.ByEmail?
  {
    PrefixChain(before, mid, after);
    forall j | |before| <= j < |mid| ensures after[j] == mid[j] {
      assert after[..|mid|][j] == mid[j];
    }
  }

  /** One turn of the loop, unfolded: a known first recipient gets a copy
      and the loop goes on with the rest of the list. */
  lemma DeliverStep(users: seq<User>, db: Db, to: seq<Address>, from: Address,
                    subject: string, content: string)
    requires to != [] && FindUserByEmail(users, to[0]).Some?
    ensures Deliver(users, db, to, from, subject, content)
      == Deliver(users, DeliverOne(db, FindUserByEmail(users, to[0]).value, to[0], from, subject, content),
                 to[1..], from, subject, content)
  {
  }

  /** The first record the loop adds is the first recipient's copy,
      stamped with the clock reading the send began with. */
  lemma DeliverFirstCopy(users: seq<User>, db: Db, to: seq<Address>, from: Address,
                         subject: string, content: string)
    requires 0 < FirstUnknown(users, to)
    ensures var d := Deliver(users, db, to, from, subject, content).0;
      && |db.messages| < |d.messages|
      && d.messages[|db.messages|].timestamp == db.clock
      && RecipientCopy(d.messages[|db.messages|], to[0], FindUserByEmail(users, to[0]).value,
                       from, subject, content, db.mailboxes, d.mailboxes)
  {
    var u := FindUserByEmail(users, to[0]).value;
    var db2 := DeliverOne(db, u, to[0], from, subject, content);
    DeliverOneShape(db, u, to[0], from, subject, content);
    DeliverOneCopy(db, u, to[0], from, subject, content);
    DeliverStep(users, db, to, from, subject, content);
    DeliverShape(users, db2, to[1..], from, subject, content);
    var d := Deliver(users, db2, to[1..], from, subject, content).0;
    var n := |db.messages|;
    var m := db2.messages[n];
    assert d.messages[..|db2.messages|] == db2.messages;
    assert d.messages[n] == m;
    RecipientCopyExtends(m, to[0], u, from, subject, content, db.mailboxes, db2.mailboxes, d.mailboxes);
  }

  /** The i-th record the loop adds is the copy for the i-th recipient,
      stamped i clock ticks after the send began. */
  lemma {:induction false} DeliverCopy(users: seq<User>, db: Db, to: seq<Address>, from: Address,
                                       subject: string, content: string, i: nat)
    requires i < FirstUnknown(users, to)
    ensures var d := Deliver(users, db, to, from, subject, content).0;
      && |db.messages| + i < |d.messages|
      && d.messages[|db.messages| + i].timestamp == db.clock + i
      && RecipientCopy(d.messages[|db.messages| + i], to[i], FindUserByEmail(users, to[i]).value,
                       from, subject, content, db.mailboxes, d.mailboxes)
    decreases |to|, 2
  {
    if i == 0 {
      DeliverFirstCopy(users, db, to, from, subject, content);
    } else {
      DeliverCopyLater(users, db, to, from, subject, content, i - 1, i);
    }
  }

  /** The recursive case of DeliverCopy, for i = j + 1: the copy the rest
      of the loop stores for its j-th recipient is the copy for recipient i. */
  lemma {:induction false} DeliverCopyLater(users: seq<User>, db: Db, to: seq<Address>, from: Address,
                                            subject: string, content: string, j: nat, i: nat)
    requires i == j + 1 && i < FirstUnknown(users, to)
    ensures var d := Deliver(users, db, to, from, subject, content).0;
      && |db.messages| + i < |d.messages|
      && d.messages[|db.messages| + i].timestamp == db.clock + i
      && RecipientCopy(d.messages[|db.messages| + i], to[i], FindUserByEmail(users, to[i]).value,
                       from, subject, content, db.mailboxes, d.mailboxes)
    decreases |to|, 1
  {
    var u := FindUserByEmail(users, to[0]).value;
    var db2 := DeliverOne(db, u, to[0], from, subject, content);
    var rest := to[1..];
    assert to[i] == rest[j];
    assert FirstUnknown(users, to) == 1 + FirstUnknown(users, rest);
    DeliverOneShape(db, u, to[0], from, subject, content);
    DeliverCopyAfterTurn(users, db, db2, rest, from, subject, content, j, i);
    DeliverStep(users, db, to, from, subject, content);
    assert Deliver(users, db, to, from, subject, content).0 == Deliver(users, db2, rest, from, subject, content).0;
  }

  /** Once a first turn has taken the store from `db` to `db2`, adding one
      record, one clock tick and only mailboxes keyed by addresses, the copy
      the rest of the loop stores for its j-th recipient sits one position
      and one tick further on than the turn count alone says. */
  lemma {:induction false} DeliverCopyAfterTurn(users: seq<User>, db: Db, db2: Db, rest: seq<Address>,
                                                from: Address, subject: string, content: string, j: nat, i: nat)
    requires i == j + 1 && j < FirstUnknown(users, rest)
    requires |db2.messages| == |db.messages| + 1 && db2.clock == db.clock + 1
    requires |db.mailboxes| <= |db2.mailboxes| && db2.mailboxes[..|db.mailboxes|] == db.mailboxes
    requires forall k :: |db.mailboxes| <= k < |db2.mailboxes| ==> db2.mailboxes[k].owner.ByEmail?
    ensures var d := Deliver(users, db2, rest, from, subject, content).0;
      && |db.messages| + i < |d.messages|
      && d.messages[|db.messages| + i].timestamp == db.clock + i
      && RecipientCopy(d.messages[|db.messages| + i], rest[j], FindUserByEmail(users, rest[j]).value,
                       from, subject, content, db.mailboxes, d.mailboxes)
    decreases |rest| + 1, 0
  {
    DeliverCopy(users, db2, rest, from, subject, content, j);
    var d := Deliver(users, db2, rest, from, subject, content).0;
    var m := d.messages[|db2.messages| + j];
    assert d.messages[|db.messages| + i] == m;
    RecipientCopyEarlier(m, rest[j], FindUserByEmail(users, rest[j]).value,
                         from, subject, content, db.mailboxes, db2.mailboxes, d.mailboxes);
  }

  /** A send to k recipients that all have user records, by a sender that
      has one, stores exactly k + 1 records; otherwise it aborts, at the
      first unknown recipient keeping the copies already stored, or after
      all recipient copies when the sender is unknown. Records already
      stored are never touched, mailboxes are only added, and the store
      stays well formed. */
  lemma SendShape(users: seq<User>, db: Db, senderId: UserId, content: string,
                  subject: string, to: seq<Address>, from: Address)
    ensures var (reply, d) := SendOutcome(users, db, senderId, content, subject, to, from);
      var k := FirstUnknown(users, to);
      && (reply.Ok? || reply.Aborted?)
      && (reply.Ok? <==> k == |to| && FindUserById(users, senderId).Some?)
      && |d.messages| == |db.messages| + k + (if reply.Ok? then 1 else 0)
      && d.messages[..|db.messages|] == db.messages
      && |db.mailboxes| <= |d.mailboxes| && d.mailboxes[..|db.mailboxes|] == db.mailboxes
      && (WellFormed(db) ==> WellFormed(d))
  {
    var (delivered, complete) := Deliver(users, db, to, from, subject, content);
    DeliverShape(users, db, to, from, subject, content);
    if complete {
      GetOrCreateSpec(delivered, senderId);
      var (reply, d) := SendOutcome(users, db, senderId, content, subject, to, from);
      assert d.mailboxes[..|delivered.mailboxes|] == delivered.mailboxes;
      assert d.mailboxes[..|db.mailboxes|] == db.mailboxes;
      assert d.messages[..|delivered.messages|] == delivered.messages;
    }
  }

  /** Whatever the outcome, the i-th record after the ones already stored
      is the copy for the i-th recipient, for every recipient before the
      first unknown one. */
  lemma SendRecipientCopies(users: seq<User>, db: Db, senderId: UserId, content: string,
                            subject: string, to: seq<Address>, from: Address)
    ensures var d := SendOutcome(users, db, senderId, content, subject, to, from).1;
      forall i :: 0 <= i < FirstUnknown(users, to) ==>
        && |db.messages| + i < |d.messages|
        && RecipientCopy(d.messages[|db.messages| + i], to[i], FindUserByEmail(users, to[i]).value,
                         from, subject, content, db.mailboxes, d.mailboxes)
  {
    var (delivered, complete) := Deliver(users, db, to, from, subject, content);
    var d := SendOutcome(users, db, senderId, content, subject, to, from).1;
    DeliverShape(users, db, to, from, subject, content);
    if complete {
      GetOrCreateSpec(delivered, senderId);
      assert d.mailboxes[..|delivered.mailboxes|] == delivered.mailboxes;
      assert d.messages[..|delivered.messages|] == delivered.messages;
    }
    forall i | 0 <= i < FirstUnknown(users, to)
      ensures |db.messages| + i < |d.messages|
      ensures RecipientCopy(d.messages[|db.messages| + i], to[i], FindUserByEmail(users, to[i]).value,
                            from, subject, content, db.mailboxes, d.mailboxes)
    {
      DeliverCopy(users, db, to, from, subject, content, i);
      var m := delivered.messages[|db.messages| + i];
      assert d.messages[|db.messages| + i] == m;
      RecipientCopyExtends(m, to[i], FindUserByEmail(users, to[i]).value,
                           from, subject, content, db.mailboxes, delivered.mailboxes, d.mailboxes);
    }
  }

  /** A send that succeeds ends with the sender's copy: read, addressed to
      the whole recipient list, from the sender's own address, with the
      subject and content sent, in the sender's mailbox (found or created
      by user id). */
  lemma SenderCopy(users: seq<User>, db: Db, senderId: UserId, content: string,
                   subject: string, to: seq<Address>, from: Address)
    requires SendOutcome(users, db, senderId, content, subject, to, from).0.Ok?
    ensures var d := SendOutcome(users, db, senderId, content, subject, to, from).1;
      && |d.messages| == |db.messages| + |to| + 1
      && FindUserById(users, senderId).Some?
      && FindMailbox(d.mailboxes, ByUserId(senderId)).Some?
      && var s := d.messages[|db.messages| + |to|];
         && s.to == to && s.isRead && s.from == FindUserById(users, senderId).value.email
         && s.subject == subject && s.content == content
         && s.mailbox == FindMailbox(d.mailboxes, ByUserId(senderId)).value.id
  {
    var (delivered, complete) := Deliver(users, db, to, from, subject, content);
    DeliverShape(users, db, to, from, subject, content);
    GetOrCreateSpec(delivered, senderId);
    GetOrCreateIdempotent(delivered, senderId);
  }
}
