/** Record shapes of the mail store: users, mailboxes and email messages
    (models/Email.js, models/Mailbox.js), and the outcomes a route handler
    can answer with. */
module Records {

  /** Document ids. Mongo's ObjectIds are modelled as naturals handed out by
      the store's own counter. */
  type UserId = nat
  type MailboxId = nat
  type MessageId = nat

  /** An email address, as a plain string. */
  type Address = string

  datatype Option<+T> = None | Some(value: T)

  /** A registered user, as far as the mail routes look at one. */
  datatype User = User(id: UserId, email: Address)

  /** What a mailbox's `userId` field holds. Normally the owner's user id;
      the send route also creates mailboxes keyed by a recipient's email
      string (routes/mailbox.js:261-263), which the second constructor keeps
      apart. */
  datatype OwnerKey = ByUserId(userId: UserId) | ByEmail(address: Address)

  datatype Mailbox = Mailbox(id: MailboxId, owner: OwnerKey)

  /** One stored email record. `timestamp` is the reading of the store's
      clock when the record was built. */
  datatype Message = Message(
    id: MessageId,
    mailbox: MailboxId,
    from: Address,
    to: seq<Address>,
    subject: string,
    content: string,
    timestamp: nat,
    isRead: bool)

  /** The answers a handler gives: a value, or one of the error responses
      (404 "not found", 404 "Page not found", 403, or a request that threw
      part-way and ended in the 500 handler). */
  datatype Reply<+T> = Ok(value: T) | NotFound | PageNotFound | Unauthorized | Aborted
}
