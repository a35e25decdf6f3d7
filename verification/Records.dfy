/** Records of the local replica and the checks their factories make
    (`src/domain/mailbox.ts`, `email.ts`, `attachment-ref.ts`, `identity.ts`). */
module Records {
  import opened Base
  import opened SendIntents

  datatype Account = Account(key: string, serviceKey: string, jmapAccountId: string)

  datatype MailboxRights = MailboxRights(mayReadItems: bool, mayAddItems: bool, mayRemoveItems: bool,
                                         maySetSeen: bool, maySetKeywords: bool, maySubmit: bool)

  datatype Mailbox = Mailbox(id: ScopedId, name: string, parent: Option<ScopedId>, role: Option<string>,
                             sortOrder: int, totalEmails: int, unreadEmails: int, rights: MailboxRights)

  datatype Email = Email(id: ScopedId, blobId: ScopedId, threadId: ScopedId, headers: seq<Option<seq<Address>>>,
                         subject: Option<string>, sentAt: Option<string>, receivedAt: string, size: int,
                         preview: string, hasAttachment: bool, keywords: set<string>)

  datatype Membership = Membership(emailId: ScopedId, mailboxId: ScopedId)

  datatype EmailBody = EmailBody(emailId: ScopedId, text: Option<string>, html: Option<string>)

  datatype Attachment = Attachment(emailId: ScopedId, partId: string, blobId: ScopedId, name: Option<string>,
                                   mediaType: string, size: int, disposition: Option<string>, cid: Option<string>)

  datatype DataType = EmailData | MailboxData | IdentityData

  datatype Cursor = Cursor(accountKey: string, dataType: DataType, state: string)

  predicate SafeCount(n: int) {
    0 <= n <= MAX_SAFE_INTEGER
  }

  predicate UsableMailbox(m: Mailbox) {
    && m.name != ""
    && (m.parent.Some? ==> m.parent.value.accountKey == m.id.accountKey && m.parent.value != m.id)
    && m.role != Some("")
    && 0 <= m.sortOrder < 0x8000_0000
    && SafeCount(m.totalEmails) && SafeCount(m.unreadEmails)
    && m.unreadEmails <= m.totalEmails
  }

  predicate UsableEmail(e: Email) {
    && e.blobId.accountKey == e.id.accountKey
    && e.threadId.accountKey == e.id.accountKey
    && SafeCount(e.size)
    && e.receivedAt != ""
    && e.sentAt != Some("")
    && "" !in e.keywords
  }

  predicate UsableMembership(m: Membership) {
    m.emailId.accountKey == m.mailboxId.accountKey
  }

  function ToLower(s: string): (r: string)
    ensures |r| == |s|
  {
    seq(|s|, i requires 0 <= i < |s| => if 'A' <= s[i] <= 'Z' then 'a' + (s[i] - 'A') else s[i])
  }

  predicate UsableAttachment(a: Attachment) {
    && a.blobId.accountKey == a.emailId.accountKey
    && a.mediaType != ""
    && !("multipart/" <= ToLower(a.mediaType))
    && SafeCount(a.size)
  }

  predicate UsableIdentity(i: Identity) {
    i.email != ""
  }
}
