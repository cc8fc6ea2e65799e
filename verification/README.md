# Model of a JMAP and SMTP mail relay

A Dafny model of the relay's self-contained algorithms and state machines, with the
properties its code and documentation promise proved for every input, every run or every
reachable state.  One module stands for each component:

- `Base58`, `ZBase32`: the two identifier encodings, as the in-place loops of the source
  refined against positional numbers and bit strings (`Arithmetic`, `Alphabet`).
- `SmtpServer`, `SmtpCommands`, `SmtpTrace`, `SmtpData`, `SmtpClient`, `SmtpDeliver`: the
  inbound session and the outbound client as one protocol.  The server is given as the
  blocking loop and as a machine fed byte by byte; the client talks to that machine over a
  `Wire`.
- `ChangeLog`, `Mailboxes`, `MailboxLists`, `Emails`, `Listing`, `Threads`, `ThreadIds`,
  `Store`, `Patches`, `Sync`, `ReplyTrees`, `Restart`: the message store.  `Store.Store`
  updates its fields as the source does; its methods are tied to functions on a `State`, and
  the theorems are about runs of those.
- `Search`, `Base64`, `Mime`, `MimePrinted`, `MimeReader`, `Heads`, `PgpWrap`, `Sealed`: the
  MIME reader and the two printers it has to undo.
- `Mux`, `Accounts`, `QueueFiles`, `Queue`, `Nonces`, `DeviceSessions`: routing, the alias
  table, the retry queue, login nonces and device sessions.

Text is a sequence of characters with one character to a byte; case and white space are
those of ASCII.  Clocks, random identifiers, hashes, DNS answers, the outcome of a send and
the answers of hooks and of the mail backend are parameters.  JSON files are read back as
they were written, and outside the queue no write fails.

Where the code and its comments disagree the model follows the code.  The comment on
`read_data` says a truncated payload is discarded (crates/jmapsmtp/src/smtp_in.rs:480-481);
the code delivers it, and `SmtpTrace.TruncatedPayloadIsDelivered` says exactly what.

Some properties one would expect do not hold of the code.  For each there is a run that shows
it and the exact condition under which it does hold: a primary that resolves to itself
(`Accounts.PrimariesReachThemselves`), disjoint sets for mailboxes (`Sync.NeverAgainIsDisjoint`,
`Sync.MailboxesOverlapExactly`), an invisible sweep (`Nonces.SweepShowsExactly`), reading back
rewrapped armour (`PgpWrap.ArmourIsReadExactly`), a crawl at any limit (`Listing.CrawlIsWhole`)
and a store that forgets nothing (`Restart.UnsafeForgets`).

## Model

| member | source | states |
|---|---|---|
| Base58.CarryLoop | crates/jmapserver/src/base58.rs:29-40 | rewriting the digits in place and pushing the carry is one exact multiply-and-add on the number the digits denote, through the `u32` and `u8` widths |
| Base58.StepWithinWidths | crates/jmapserver/src/base58.rs:31-36 | every carry stays below the multiplier, and neither the `u32` arithmetic nor the `as u8` cast loses anything |
| Base58.PassOfToBase | crates/jmapserver/src/base58.rs:29-40 | one pass over canonical digits gives the canonical digits of `n * m + symbol` |
| Base58.ToBaseDenotes | crates/jmapserver/src/base58.rs:25-56 | the digits the loops build denote the number, in canonical form |
| Base58.CanonicalUnique | crates/jmapserver/src/base58.rs:25-56 | two canonical digit strings with one value are the same, which is what makes the conversion invertible |
| Base58.RecodeTwice | crates/jmapserver/src/base58.rs:25-78 | converting from 256 to 58 and back, leading zeros counted separately, is the identity on digit strings, in both directions |
| Base58.Encode | crates/jmapserver/src/base58.rs:25-56 | the loops compute the positional encoding: a `1` for every leading zero byte, then the number in base 58 |
| Base58.Decode | crates/jmapserver/src/base58.rs:58-78 | the loops compute the positional decoding, or fail on a foreign character |
| Base58.DecodeOfEncode | crates/jmapserver/src/base58.rs:25-78 | decoding undoes encoding for every byte string, leading zeros included |
| Base58.EncodeOfDecode | crates/jmapserver/src/base58.rs:25-78 | every text that decodes is the encoding of what it decodes to |
| Base58.DecodeFailsExactly | crates/jmapserver/src/base58.rs:58-67 | decoding fails exactly when a character is outside the alphabet |
| Base58.AlphabetExactly | crates/jmapserver/src/base58.rs:19 | the alphabet is the digits and letters without `0`, `O`, `I` and `l`, in ascending order |
| ZBase32.Encode | crates/jmapserver/src/zbase32.rs:15-30 | the accumulator, although it overflows 32 bits, emits the bit string cut into fives and filled with zeros |
| ZBase32.Decode | crates/jmapserver/src/zbase32.rs:35-50 | the accumulator gives back the bit string cut into bytes, the first `n` of them, or fails |
| ZBase32.TakeFive | crates/jmapserver/src/zbase32.rs:20-27 | only the low bits of the truncated accumulator are read when a digit is taken |
| ZBase32.TakeEight | crates/jmapserver/src/zbase32.rs:40-48 | the same for taking a byte |
| ZBase32.DecodeOfEncode | crates/jmapserver/src/zbase32.rs:15-50 | round trip for every length, and the output length is `ceil(8n/5)` |
| ZBase32.EncodeOfDecode | crates/jmapserver/src/zbase32.rs:15-50 | re-encoding gives the text back exactly when its length is the encoder's and the padding bits are zero |
| ZBase32.DecodeFailsExactly | crates/jmapserver/src/zbase32.rs:35-50 | decoding fails exactly on a foreign character or on too few bits |
| SmtpServer.EhloResponse | crates/jmapsmtp/src/smtp_in.rs:366-392 | one line per capability, a hyphen on all but the last |
| SmtpServer.FeedAppend | crates/jmapsmtp/src/smtp_in.rs:183-200 | where the network cuts the byte stream makes no difference to the session |
| SmtpServer.ReadData | crates/jmapsmtp/src/smtp_in.rs:482-500 | the loop computes the payload reader: up to the lone dot or the end of the stream |
| SmtpServer.Session.Reset | crates/jmapsmtp/src/smtp_in.rs:64-69 | the sender and the recipients go, the greeting stays |
| SmtpServer.Session.Handle | crates/jmapsmtp/src/smtp_in.rs:200-359 | one command changes the session and answers as the pure reaction says |
| SmtpServer.Session.Mail | crates/jmapsmtp/src/smtp_in.rs:214-240 | MAIL opens an envelope, or is refused for order or syntax without counting as an error |
| SmtpServer.Session.Rcpt | crates/jmapsmtp/src/smtp_in.rs:241-270 | RCPT adds the lowercased address if it is served, and answers 250 either way |
| SmtpServer.HandleInner | crates/jmapsmtp/src/smtp_in.rs:160-359 | the blocking loop makes the same deliveries and replies as the byte-fed machine, on every input |
| SmtpCommands.ParsePathExactly | crates/jmapsmtp/src/smtp_in.rs:457-476 | an address is read if and only if it is spelled in brackets, or as a word of its own set off by white space from the parameters, after the prefix in any case; and None is the answer if it is spelled in neither way |
| SmtpCommands.SplitCommandExactly | crates/jmapsmtp/src/smtp_in.rs:406-424 | which line shapes are commands: empty, a verb of four characters, such a verb, a space and more, or anything that begins with STARTTLS; every other one is bad |
| SmtpCommands.VerbAndArgument | crates/jmapsmtp/src/smtp_in.rs:406-424 | a verb is read in any case, its argument without the white space around it, whatever line ending there is |
| SmtpTrace.EnvelopesAreFaithful | crates/jmapsmtp/src/smtp_in.rs:57-69 | at every moment recipients imply a sender implies a greeting, and each delivery carries exactly the RCPTs kept since the latest MAIL with no reset between |
| SmtpTrace.RunIsFaithful | crates/jmapsmtp/src/smtp_in.rs:160-359 | the same at the end of every session, hang-ups included |
| SmtpTrace.RepliesAreCounted | crates/jmapsmtp/src/smtp_in.rs:433-450 | the fourth protocol error ends the session and nothing else does so; replies number banner, commands, payloads asked for, and one for giving up |
| SmtpTrace.TruncatedPayloadIsDelivered | crates/jmapsmtp/src/smtp_in.rs:281-288 | a connection lost inside a payload, in the middle of a line or not, is answered 250 and still delivers what arrived, the last piece unstuffed; it is discarded exactly when no recipient was kept |
| SmtpData.DotStuff | crates/jmapsmtp/src/smtp_out.rs:351-362 | the flag and buffer compute the stuffed message |
| SmtpData.UnstuffLine | crates/jmapsmtp/src/smtp_in.rs:490-500 | a stuffed line is never the terminator and unstuffs to the line with a full CRLF |
| SmtpData.ReadFramed | crates/jmapsmtp/src/smtp_in.rs:482-500 | the reader consumes exactly the stuffed and terminated message, whatever follows, and returns it with CRLF line endings |
| SmtpData.FeedFramed | crates/jmapsmtp/src/smtp_in.rs:281-288 | the same for the byte-fed server: the frame ends the payload and does nothing else |
| SmtpData.NormalisedOfCrlf | crates/jmapsmtp/src/smtp_out.rs:322-346 | a message already in CRLF form is returned unchanged |
| SmtpClient.ReadReply | crates/jmapsmtp/src/smtp_out.rs:407-424 | lines are read up to the first without a hyphen in the fourth column, or the stream ends |
| SmtpClient.EhloAdvertises | crates/jmapsmtp/src/smtp_out.rs:394-404 | an EHLO reply advertises exactly the server's capabilities, whatever domain it echoes |
| SmtpClient.OffersStartTls | crates/jmapsmtp/src/smtp_out.rs:161-167 | the client attempts STARTTLS exactly when the server is configured to offer it |
| SmtpClient.ServerMail | crates/jmapsmtp/src/smtp_out.rs:377-386 | the server accepts the client's MAIL line, parameters included, with exactly that sender |
| SmtpClient.ServerRcpt | crates/jmapsmtp/src/smtp_out.rs:306-318 | the server reads the client's RCPT line as exactly that address |
| SmtpClient.MailLine | crates/jmapsmtp/src/smtp_out.rs:377-386 | the MAIL line after this server's EHLO reply, to the letter: BODY=8BITMIME first, and SMTPUTF8 exactly if it is enabled |
| SmtpClient.Greet | crates/jmapsmtp/src/smtp_out.rs:217-232 | EHLO, then HELO: against this server it succeeds with a host name and fails with the EHLO rejection without one |
| SmtpClient.AddRecipients | crates/jmapsmtp/src/smtp_out.rs:306-318 | every recipient is offered in order and the envelope holds those the server keeps |
| SmtpClient.SendPayload | crates/jmapsmtp/src/smtp_out.rs:322-337 | the bytes written after 354 are one whole message to the server |
| SmtpClient.Converse | crates/jmapsmtp/src/smtp_out.rs:295-346 | from a greeted server the conversation succeeds and leaves exactly the one delivery behind |
| SmtpClient.SendOne | crates/jmapsmtp/src/smtp_out.rs:147-214 | client meets server: the send succeeds and the server's own loop over the bytes sent delivers the sender, the accepted recipients in order and the CRLF message, or nothing when none is accepted |
| SmtpDeliver.GroupByDomain | crates/jmapsmtp/src/smtp_out.rs:106-117 | recipients are grouped by the part after the last `@`, in order; one without abandons everything |
| SmtpDeliver.Deliver | crates/jmapsmtp/src/smtp_out.rs:96-144 | the relay host takes everyone, or each domain in order gets one connection to its best exchanger, and the first error is what comes back |
| SmtpDeliver.GroupsPartition | crates/jmapsmtp/src/smtp_out.rs:106-117 | the groups put together are the recipients: nobody is left out and nobody is sent to twice |
| SmtpDeliver.NoErrorExactly | crates/jmapsmtp/src/smtp_out.rs:119-144 | no error is returned exactly when every domain has an exchanger and every connection worked |
| SmtpDeliver.DomainExactly | crates/jmapsmtp/src/smtp_out.rs:108-111 | the domain of an address is what stands after its last `@`; without one there is none |
| SmtpDeliver.ConnectionsExactly | crates/jmapsmtp/src/smtp_out.rs:119-131 | one connection for each domain with an exchanger, in order, to the first listed without its trailing dots, on port 25, with that domain's recipients |
| SmtpDeliver.FirstErrorExactly | crates/jmapsmtp/src/smtp_out.rs:119-144 | the error that comes back is that of the first domain to fail, with its target and cause |
| ChangeLog.FoldChanges | crates/jmapserver/src/methods/email.rs:126-153 | the nested loops compute the fold of the records, or fail at a missing one |
| ChangeLog.Changes | crates/jmapserver/src/methods/email.rs:155-172 | an answer for a state that is neither negative nor in the future |
| ChangeLog.QueryChanges | crates/jmapserver/src/methods/email.rs:180-216 | the same added and removed ids as the fold |
| ChangeLog.AnswerSucceeds | crates/jmapserver/src/methods/email.rs:155-172 | a client is answered exactly when its state is one the store has been in |
| ChangeLog.FoldReplays | crates/jmapserver/src/methods/email.rs:126-153 | on any log the created and destroyed sets turn the old id set into the new one and are disjoint |
| ChangeLog.UpdatedExactly | crates/jmapserver/src/methods/email.rs:126-153 | on a log the store can produce, the three sets are disjoint and the updated ids are those patched and neither added nor removed in the window |
| ChangeLog.FoldExactly | crates/jmapserver/src/methods/email.rs:126-153 | on any log, which ids each of the three sets holds: added and not removed since, updated when not created and not removed since, removed and not added since |
| ChangeLog.OverlapExactly | crates/jmapserver/src/methods/email.rs:126-153 | on any log an id is both created and updated exactly if a record adds it after one of the window updated it, with no removal in between and not created in the window before |
| ChangeLog.FoldComposes | crates/jmapserver/src/methods/email.rs:126-153 | folding two adjacent windows and combining equals folding the whole |
| Sync.StepFits | crates/jmapserver/src/store.rs:269-513 | every operation keeps the log describing exactly the messages there are, and only ever extends it |
| Sync.LogsExactly | crates/jmapserver/src/store.rs:269-513 | which operations move the state and what they record: filing a message again, or removing what is not there, is silent |
| Sync.SyncIsSilent | crates/jmapserver/src/store.rs:543-560 | a mailbox sync does nothing exactly if it brings no id and takes none away |
| Sync.ChangesAreSound | crates/jmapserver/src/methods/email.rs:155-172 | over every run the answer turns the ids the client had into the ids there are, with disjoint sets and the exact updated ids |
| Sync.EveryStateIsServed | crates/jmapserver/src/methods/email.rs:155-172 | every state from zero to the current one was reached by some prefix of the run and is answered soundly |
| Sync.SyncComposes | crates/jmapserver/src/methods/email.rs:126-153 | over every run, syncing at an intermediate point and again now gives what syncing once gives |
| Sync.MailboxStepFits | crates/jmapserver/src/store.rs:543-587 | every operation keeps the mailbox log describing the mailbox ids on disk, with records that update only ids that are there |
| Sync.MailboxChangesAreSound | crates/jmapserver/src/methods/mailbox.rs:30-68 | over every run the answer for mailboxes turns the ids there were into the ids there are; the updated ones are in both snapshots and none is destroyed; and each set is exact |
| Sync.MailboxesOverlapExactly | crates/jmapserver/src/methods/mailbox.rs:30-68 | over every run a mailbox is reported as created and as updated exactly if a record adds its id after one of the window updated it |
| Sync.NeverAgainIsDisjoint | crates/jmapserver/src/methods/mailbox.rs:30-68 | as long as no accepted create names an id in the list, the three sets are disjoint |
| Sync.CreatedAgainOverlaps | crates/jmapserver/src/methods/mailbox.rs:192-208 | from every state: after an update of a mailbox, a `Mailbox/set` overlaps with it exactly if it is let create that id again and does not destroy it at once |
| Sync.CreatedTwiceOverlaps | crates/jmapserver/src/methods/mailbox.rs:192-208 | a run from a new store that does so: create, update, create again |
| Mailboxes.SyncKeepsIds | crates/jmapserver/src/store.rs:543-560 | the record of a sync tells exactly how the id set moved, and there is none when it did not |
| Mailboxes.Set | crates/jmapserver/src/methods/mailbox.rs:166-236 | the three loops edit the list and the record as the request and the hook say |
| Mailboxes.SetKeepsIds | crates/jmapserver/src/methods/mailbox.rs:166-236 | the record of `Mailbox/set` tells exactly how the id set moved |
| Mailboxes.RecordsExactly | crates/jmapserver/src/methods/mailbox.rs:166-236 | which ids the record names: the accepted creates, and the updates and accepted destroys of what was there or just created |
| MailboxLists.UpdatesExactly | crates/jmapserver/src/methods/mailbox.rs:196-208 | after the updates every mailbox is where it was and what it was, but the first of an id has the last name given to it |
| MailboxLists.CreatesExactly | crates/jmapserver/src/methods/mailbox.rs:180-194 | the accepted creates are added at the end, as they came but for a missing id, which is made from the creation key |
| MailboxLists.RetainExactly | crates/jmapserver/src/methods/mailbox.rs:229-236 | a destroyed id takes every mailbox of that id and no other |
| Store.Store.constructor | crates/jmapserver/src/store.rs:159-188 | opening reads every message file with a non-empty id, the counters and the identities |
| Store.Store.Put | crates/jmapserver/src/store.rs:269-291 | the message is threaded, written and filed; only a new one bumps the state and is logged |
| Store.Store.Delete | crates/jmapserver/src/store.rs:355-372 | a stored message is removed and logged; the file goes in any case |
| Store.Store.Purge | crates/jmapserver/src/store.rs:379-408 | everything goes under one record; only message files are removed |
| Store.Store.PatchEmail | crates/jmapserver/src/store.rs:465-513 | a patch of a stored message is applied, logged and written; an unknown id is left alone |
| Patches.PatchExactly | crates/jmapserver/src/store.rs:465-513 | for every keyword and mailbox, what a patch leaves: a boolean is the new value, a null clears it where mailboxes may be patched, anything else or no key leaves it; nothing else of the message and no other message changes, and the file holds the result |
| Store.Store.MatchingIds | crates/jmapserver/src/store.rs:440-450 | the listing that sorts ids only is the full listing, filtered |
| Store.Store.SyncMailboxes | crates/jmapserver/src/store.rs:543-560 | the list is replaced and recorded, unless the id sets agree |
| Store.Store.MailboxSet | crates/jmapserver/src/methods/mailbox.rs:229-236 | an accepted `Mailbox/set` writes the list and bumps the mailbox state |
| Store.Store.BumpMailboxState | crates/jmapserver/src/store.rs:580-586 | the mailbox state goes up by one and the record is filed under it |
| Store.Store.ReplaceIdentities | crates/jmapserver/src/store.rs:617-632 | the list is replaced and written, and the counter goes up by the bumps |
| Store.Store.AddSubmission | crates/jmapserver/src/store.rs:677-682 | a submission is appended, counted and written |
| Store.FileNameExtension | crates/jmapserver/src/store.rs:694-699 | a message file is one that opening looks at exactly when the id is not empty |
| Store.SafeFilenameExactly | crates/jmapserver/src/store.rs:717-737 | no separator or wildcard gets into a file name and nothing beyond 200 characters; other ids are their own names |
| Restart.StepAgrees | crates/jmapserver/src/store.rs:269-513 | every operation keeps the files agreeing with memory, over ids with file names of their own |
| Restart.RestartIsProjection | crates/jmapserver/src/store.rs:159-255 | after any run over such ids, opening the directory rebuilds messages, counters, logs, submissions and identities, and forgets drafts, blobs, vacation and the identity counter |
| Restart.SoundAcrossRestart | crates/jmapserver/src/store.rs:18-20 | a client is told the truth by `changes` across a restart |
| Restart.CollidingIdsForget | crates/jmapserver/src/store.rs:717-737 | two ids with one file name: the first message is lost at the next start |
| Restart.EmptyIdForgets | crates/jmapserver/src/store.rs:173-176 | a message with an empty id is never read back |
| Restart.UnsafeForgets | crates/jmapserver/src/store.rs:717-737 | the condition is exact: over any other set of ids some run loses a message |
| Restart.NamesCollide | crates/jmapserver/src/store.rs:717-726 | `a:b` and `a/b` are one file |
| Listing.AllIsOrdered | crates/jmapserver/src/store.rs:414-420 | every message once, newest first, ties in id order |
| Listing.ListedByTime | crates/jmapserver/src/store.rs:414-420 | a message listed before another was received no earlier, absent times counting as the epoch, and ties go by id |
| Listing.OrderedUnique | crates/jmapserver/src/store.rs:414-450 | that order leaves no choice: one set of messages has one listing |
| Listing.FilterSort | crates/jmapserver/src/store.rs:440-450 | filtering and stable sorting commute, ties included |
| Listing.MatchingIsFiltered | crates/jmapserver/src/store.rs:440-450 | `matching_ids(keep)` is exactly the ids of `all()` that satisfy `keep`, in its order |
| Listing.CrawlIsWhole | crates/jmapserver/src/methods/email.rs:91-102 | from every position and for every limit, pages at p, p+L, p+2L, ... join up with no gap or repeat, or panic exactly when the end of the last page does not fit a machine word |
| Listing.CrawlFromStart | crates/jmapserver/src/methods/email.rs:91-102 | from position 0 every limit gives the whole list |
| Listing.PageHolds | crates/jmapserver/src/methods/email.rs:91-102 | a page holds the ids from its start on, a negative start being the first, up to the limit, zero being none, or the end of the list |
| Listing.PagePanicsExactly | crates/jmapserver/src/methods/email.rs:91-102 | slicing a page panics exactly when its end does not fit a machine word |
| Threads.ResolveThreadId | crates/jmapserver/src/store.rs:307-339 | group id first, then the first reference that names a stored message, else a new thread |
| ThreadIds.ResolvedExactly | crates/jmapserver/src/store.rs:307-339 | the first named group decides, whatever the message refers to; else the first message it answers, and only then the first it refers to, that a stored message with a thread goes by; else a new thread under its Message-ID or id |
| ThreadIds.IndexExactly | crates/jmapserver/src/store.rs:317-328 | a Message-ID leads to the thread of the last stored message that bears it |
| ThreadIds.BareExactly | crates/jmapserver/src/store.rs:322 | ids are compared without the brackets around them |
| Threads.ThreadGet | crates/jmapserver/src/methods/thread.rs:21-62 | grouping, sorting and looking up give each wanted thread its members, and the rest as not found |
| Threads.ThreadsPartition | crates/jmapserver/src/methods/thread.rs:24-42 | a message is listed in its own thread and no other, once, in strictly increasing order of time and id |
| ReplyTrees.IndexHolds | crates/jmapserver/src/store.rs:317-328 | the Message-ID index leads to the thread of the one message that bears the id |
| ReplyTrees.ResolvesToParent | crates/jmapserver/src/store.rs:307-339 | a reply joins the thread of its root, and a message without a parent starts one |
| ReplyTrees.ThreadsAreReplyTrees | crates/jmapserver/src/methods/thread.rs:21-62 | over any run of arrivals, parents first, two messages share a thread id, and a thread list, exactly when they have the same root |
| Search.Replace | crates/jmapsmtp/src/autocrypt.rs:187-197 | the loop replaces every occurrence, left to right |
| Base64.DecodeOfEncode | crates/jmapserver/src/mime.rs:626-646 | strict base64 decoding undoes encoding for all bytes |
| Base64.DecodeOfWrapped | crates/jmapsmtp/src/pgp.rs:231-239 | encoded, wrapped at 76 characters and decoded leniently, bytes come back |
| Base64.WrapLines | crates/jmapsmtp/src/pgp.rs:231-239 | every line but the last is 76 characters and a CRLF, and the characters stay in order |
| Base64.LenientExactly | crates/jmapserver/src/mime.rs:626-646 | white space aside, the longest part of a body from its start that decodes is what it decodes to |
| Base64.NoSpacesExactly | crates/jmapserver/src/mime.rs:626-634 | the five kinds of white space go and nothing else does, wherever it stands |
| Mime.ParseHeaders | crates/jmapserver/src/mime.rs:94-115 | the loop unfolds and collects the header lines in order |
| Heads.ReadsFoldedHeader | crates/jmapserver/src/mime.rs:94-115 | a header folded over several lines is read as one, its continuations joined to the value by single blanks, with what precedes and follows unchanged |
| Heads.FindsFoldedBoundary | crates/jmapserver/src/mime.rs:94-115 | a boundary parameter on a continuation line is found |
| MimeReader.ParsesLfMessage | crates/jmapserver/src/mime.rs:75-115 | a message with bare LF line endings reads back as its headers and its body |
| MimeReader.ParsesHeadOnly | crates/jmapserver/src/mime.rs:75-91 | a message without a blank line is all head, and nothing at all is no message |
| Mime.SplitParams | crates/jmapserver/src/mime.rs:768-785 | the loop splits on semicolons outside quotes |
| Mime.SplitParts | crates/jmapserver/src/mime.rs:691-733 | the loop finds the parts between delimiters, preamble and epilogue discarded |
| MimeReader.ReadsLfMultipart | crates/jmapserver/src/mime.rs:691-733 | parts printed with bare LF are exactly those read, whatever precedes the first delimiter |
| Mime.ExtractMimeText | crates/jmapserver/src/mime.rs:214-281 | the branches and loops compute the text of a message |
| Mime.CollectAttachments | crates/jmapserver/src/mime.rs:308-351 | the recursion collects every part disposed as an attachment |
| MimeReader.NamesExactly | crates/jmapserver/src/mime.rs:325-351 | an attachment is named by its disposition, failing that by its content type, failing that not at all |
| MimeReader.OthersAreNone | crates/jmapserver/src/mime.rs:325-351 | a part with another disposition or none is no attachment |
| MimePrinted.ParsesMessage | crates/jmapserver/src/mime.rs:68-115 | a printed head of plain lines and a blank line read back as those headers and that body |
| MimePrinted.ParsesMedia | crates/jmapserver/src/mime.rs:739-785 | a printed media type with quoted parameters reads back |
| MimeReader.ParsesBareParameter | crates/jmapserver/src/mime.rs:739-785 | a parameter need not be quoted, and its name and the media type may be in any case |
| MimeReader.UnquoteExactly | crates/jmapserver/src/mime.rs:739-785 | quotes are taken off in pairs, and only at the two ends |
| MimeReader.TransferExactly | crates/jmapserver/src/mime.rs:611-622 | a transfer encoding is known in any case and with white space around it, and an unknown one is none |
| MimeReader.MixedTextExactly | crates/jmapserver/src/mime.rs:247-281 | the text of a multipart is what its first part that says anything says, failing that the first HTML that converts to something, and else nothing |
| MimeReader.EncryptedIsArmour | crates/jmapserver/src/mime.rs:225-246 | the text of an encrypted message is empty or armour, whatever plain text stands beside it |
| MimePrinted.ReadsMultipart | crates/jmapserver/src/mime.rs:691-733 | texts printed between delimiters that occur in none of them are exactly the parts that are read |
| PgpWrap.SplitCrlf | crates/jmapsmtp/src/autocrypt.rs:163-174 | the loop splits on CRLF with no trailing empty line |
| PgpWrap.PgpMimeWrapInline | crates/jmapsmtp/src/autocrypt.rs:95-151 | a message with an armoured block after its head becomes the PGP/MIME message, any other is refused |
| PgpWrap.NewlinesThereAndBack | crates/jmapserver/src/mime.rs:607-609 | LF to CRLF and back is the identity, even on text with CRLF in it |
| PgpWrap.BlockBegins | crates/jmapsmtp/src/autocrypt.rs:99-115 | the block runs from BEGIN to the first END after it and always starts with the whole BEGIN line |
| PgpWrap.PgpBlockExactly | crates/jmapsmtp/src/autocrypt.rs:95-115 | the head and block are those of the first blank line, the first BEGIN after it and the first END after that, END included; and None exactly if there is no such place |
| PgpWrap.WrapThenRead | crates/jmapsmtp/src/autocrypt.rs:95-151 | wrapping and then extracting the text gives the armour back byte for byte: for every message, folded headers included, in which no line hides a Content-Type, and a delimiter that is not in the block |
| PgpWrap.UsualLinesDoNotHide | crates/jmapsmtp/src/autocrypt.rs:125-134 | a continuation, a line without a colon and a name with no space before its colon hide nothing |
| PgpWrap.NewTypeIsFoundExactly | crates/jmapsmtp/src/autocrypt.rs:125-134 | the new Content-Type is read last and is the one that is found exactly if no line hides another; if one does, the first such value is found |
| PgpWrap.OthersComeBack | crates/jmapsmtp/src/autocrypt.rs:122-134 | what is read of the wrapped message is what was read of the original, in order, without Content-Type and Content-Transfer-Encoding, and then the new Content-Type |
| PgpWrap.FoldedTypeSpills | crates/jmapsmtp/src/autocrypt.rs:125-134 | a folded Content-Type is dropped without its continuation, which is then read as part of the header before it |
| PgpWrap.ArmourIsReadExactly | crates/jmapsmtp/src/autocrypt.rs:95-151 | where the value found takes the body whole or not at all, the armour is read back if and only if no line hides a Content-Type |
| PgpWrap.SpacedNameLoses | crates/jmapsmtp/src/autocrypt.rs:125-134 | any such value behind a name with a space before its colon: the armour is not what is read |
| PgpWrap.PlainTextTakesWhole | crates/jmapserver/src/mime.rs:223 | the old text/plain is such a value |
| Heads.InsertedIsLast | crates/jmapsmtp/src/autocrypt.rs:46-57 | in any message with a blank line an inserted header line is read as the last one, and the other headers and the body are as before |
| Sealed.BuildEncryptedMultipart | crates/jmapsmtp/src/pgp.rs:192-229 | the appends build one multipart/mixed of the text and the files |
| Sealed.ReadsFile | crates/jmapserver/src/mime.rs:691-733 | a file part is read with its three headers and its encoded body |
| Sealed.AttachmentsComeBack | crates/jmapserver/src/mime.rs:293-351 | the reader finds exactly the attached files, in order: name, type and bytes |
| Sealed.TextComesBack | crates/jmapserver/src/mime.rs:247-281 | and the text, with LF line endings |
| Sealed.NoQuotesToStrip | crates/jmapsmtp/src/pgp.rs:209-219 | a file whose name has no quote and whose type is given comes back as it was |
| Sealed.NameWithoutQuotes | crates/jmapsmtp/src/pgp.rs:209-219 | each quote is taken out of a name and the rest stays in order; a missing type becomes application/octet-stream |
| Mux.LexicalClean | crates/jmapsmtp/src/gomux.rs:174-190 | the stack resolves empty, `.` and `..` segments |
| Mux.Clean | crates/jmapsmtp/src/gomux.rs:149-167 | the cleaned path with its trailing slash put back |
| Mux.CleanPathIsClean | crates/jmapsmtp/src/gomux.rs:149-190 | the result is rooted and has no empty, `.` or `..` segment, bar a trailing slash |
| Mux.CleanPathFixes | crates/jmapsmtp/src/gomux.rs:149-190 | exactly the clean paths are left as they are |
| Mux.CleanPathIdempotent | crates/jmapsmtp/src/gomux.rs:149-190 | cleaning twice is cleaning once |
| Mux.DotDotTakesBack | crates/jmapsmtp/src/gomux.rs:174-190 | wherever a segment and a double dot after it stand in a path, cleaning is as if neither were there |
| Mux.DotsVanish | crates/jmapsmtp/src/gomux.rs:174-190 | a double dot at the root, a single dot and a doubled slash change nothing |
| Mux.MatchIsMostSpecific | crates/jmapsmtp/src/gomux.rs:128-138 | a match is exact or the unique longest registered subtree |
| Mux.SubtreeExactly | crates/jmapsmtp/src/gomux.rs:128-138 | a path lies under a pattern exactly if the pattern ends in a slash and the path goes on from there |
| Mux.GoMux.Handle | crates/jmapsmtp/src/gomux.rs:70-83 | an empty, unrooted or repeated pattern is refused, any other is registered |
| Mux.GoMux.RouteRequest | crates/jmapsmtp/src/gomux.rs:95-124 | the slash redirect, then the cleaning redirect, then the handler of the match |
| Mux.RedirectSettles | crates/jmapsmtp/src/gomux.rs:95-124 | where a redirect points, nothing redirects again |
| Mux.ElsewhereExactly | crates/jmapsmtp/src/gomux.rs:95-124 | exactly which paths are redirected, and whether to the slash or to the clean form |
| Mux.FollowedOnce | crates/jmapsmtp/src/gomux.rs:140-146 | following the location keeps the query and is never redirected again |
| Accounts.AccountTable.Insert | crates/jmapsmtp/src/handler.rs:232-240 | the account, its own address and the lowercased aliases are filed |
| Accounts.AccountTable.AddAlias | crates/jmapsmtp/src/handler.rs:257-264 | an alias is added only for an account that exists |
| Accounts.AccountTable.RemoveAlias | crates/jmapsmtp/src/handler.rs:271-283 | an alias of that account is dropped, never its own address |
| Accounts.AccountTable.MigratePrimary | crates/jmapsmtp/src/handler.rs:313-332 | the account changes its primary and every alias of it follows, or nothing happens |
| Accounts.AccountTable.Remove | crates/jmapsmtp/src/handler.rs:342-349 | the account goes with every alias that leads to it |
| Accounts.RunIsSound | crates/jmapsmtp/src/handler.rs:232-349 | over every run no alias targets a missing account |
| Accounts.MigrationMovesExactly | crates/jmapsmtp/src/handler.rs:313-332 | after a migration exactly the old account's addresses and the two primaries reach the new one, and every other address is as before |
| Accounts.MigrationKeepsAddresses | crates/jmapsmtp/src/handler.rs:313-332 | everything that reached the old account reaches the new one |
| Accounts.OldPrimaryDelivers | crates/jmapsmtp/src/handler.rs:313-332 | the old primary keeps delivering exactly when it is in lower case or was aliased so |
| Accounts.OldPrimaryMayStop | crates/jmapsmtp/src/handler.rs:313-332 | one that does not: a capital, and no alias for its lower case |
| Accounts.RemovalIsComplete | crates/jmapsmtp/src/handler.rs:342-349 | after a removal nothing reaches the account and other addresses are as before |
| Accounts.RemoveAliasExactly | crates/jmapsmtp/src/handler.rs:271-283 | an added alias can be removed exactly when it is not the primary and is spelled in lower case or was filed as spelled |
| Accounts.AliasesFor | crates/jmapsmtp/src/handler.rs:285-297 | the addresses that lead to a primary, other than itself, in key order |
| Accounts.AddAliasTakesExactly | crates/jmapsmtp/src/handler.rs:257-264 | adding an alias takes that address from whoever had it, and no other |
| Accounts.StepTakesExactly | crates/jmapsmtp/src/handler.rs:232-349 | for every operation, exactly when an address reaches its own account afterwards |
| Accounts.PrimariesReachThemselves | crates/jmapsmtp/src/handler.rs:232-349 | over every run all primaries resolve to themselves throughout if and only if every step was careful: a new primary is given its lower case, and no address of another account is taken |
| Accounts.AddAliasMayTake | crates/jmapsmtp/src/handler.rs:257-264 | two accounts, and one claims the other's address: a primary need not resolve to itself |
| Accounts.InsertMayTake | crates/jmapsmtp/src/handler.rs:232-240 | an insertion alone breaks it: a primary with a capital, or an alias that is another primary |
| QueueFiles.WritesMeta | crates/jmapsmtp/src/queue.rs:104-111 | written in any pieces and renamed, the metadata is whole and the message untouched |
| QueueFiles.PartialWriteMeta | crates/jmapsmtp/src/queue.rs:104-111 | until the rename the new metadata is out of sight |
| QueueFiles.PartialEnqueue | crates/jmapsmtp/src/queue.rs:76-102 | until the last step of an enqueue nothing can be loaded |
| QueueFiles.CrashConsistency | crates/jmapsmtp/src/queue.rs:76-131 | with crashes between any two file operations, an entry that can be loaded and is not being removed is one of its complete versions beside its full original bytes |
| Queue.RelayState.TakeOn | crates/jmapsmtp/src/queue.rs:76-102 | the bytes and then the metadata are written for the id |
| Queue.RelayState.Defer | crates/jmapsmtp/src/queue.rs:141-155 | one more attempt is counted and scheduled, or the entry is removed when the schedule has run out |
| Queue.RelayState.Remove | crates/jmapsmtp/src/queue.rs:158-163 | the directory goes; a missing one is no error |
| Queue.RelayState.RetryOne | crates/jmapsmtp/src/queue.rs:198-251 | counters, disk and reports change as the outcome of the send says |
| Queue.LostBytesAreDropped | crates/jmapsmtp/src/queue.rs:198-205 | metadata without its message goes, and nothing is counted or reported |
| Queue.RelayState.Submit | crates/jmapsmtp/src/submit.rs:169-200 | a finished submission moves one counter, a deferred one moves neither and is queued |
| Queue.RelayState.Pass | crates/jmapsmtp/src/queue.rs:185-196 | what is due is retried, one message after the other |
| Queue.PassIsRun | crates/jmapsmtp/src/queue.rs:185-196 | no retry of a pass works from a stale entry |
| Queue.DueExactly | crates/jmapsmtp/src/queue.rs:165-171 | what is due is exactly the readable entries whose time has come, each once, the longest queued first |
| Queue.PassTries | crates/jmapsmtp/src/queue.rs:185-251 | a pass attempts each entry whose time has come, once, and leaves every other as it was |
| Queue.PassCountsExactly | crates/jmapsmtp/src/queue.rs:185-251 | a pass counts one sent for each ready entry delivered, one failed and one report for each given up, and nothing about any other entry |
| Queue.WaitsItsTime | crates/jmapsmtp/src/queue.rs:165-196 | until its time comes an entry stays as it is, whatever is queued and tried meanwhile |
| Queue.DeferredWaits | crates/jmapsmtp/src/queue.rs:141-196 | a deferred entry is tried by no pass before its failure time plus the wait |
| Queue.NothingIsLost | crates/jmapsmtp/src/queue.rs:198-251 | at every point the messages begun with and taken on are those sent, those failed and those waiting, and each failure of a queued message is reported once |
| Queue.CountsAttempts | crates/jmapsmtp/src/queue.rs:141-155 | over every run, from the moment an id was taken on: it is still there exactly if no attempt since has settled it and the schedule lasts for those in vain, and then it has counted them |
| Queue.RetriesEnd | crates/jmapsmtp/src/queue.rs:141-155 | over every run, with a schedule that stops, an id tried in vain that often since it was taken on is not waiting |
| Queue.PassesEmptyTheQueue | crates/jmapsmtp/src/queue.rs:185-251 | a schedule that stops empties the queue: after one pass more than that, each when the entry is due, it is gone, however its attempts ended and whatever was queued meanwhile |
| Nonces.NonceStore.Issue | crates/jmapserver/src/did/session_nonce.rs:74-92 | the expired are swept and the new nonce is live for a minute |
| Nonces.NonceStore.Consume | crates/jmapserver/src/did/session_nonce.rs:98-105 | a found nonce is consumed, and redeems if it has not expired |
| Nonces.RedeemsExactly | crates/jmapserver/src/did/session_nonce.rs:74-105 | with a steady clock a nonce redeems exactly if it was issued less than a minute ago and not touched since |
| Nonces.SweepShowsExactly | crates/jmapserver/src/did/session_nonce.rs:74-105 | for every run and any clock, the answer differs from that of a store that never sweeps exactly where a nonce still good was swept away by an issue at a time past its minute |
| Nonces.SweepIsUnobservable | crates/jmapserver/src/did/session_nonce.rs:74-105 | with a steady clock every answer is that of a store that never sweeps |
| Nonces.RedeemedOnce | crates/jmapserver/src/did/session_nonce.rs:98-105 | a nonce issued once redeems at most once, whatever the clock does |
| Nonces.ClockGoingBackShows | crates/jmapserver/src/did/session_nonce.rs:77 | a run with a clock that goes back in which the sweep shows |
| DeviceSessions.DeviceFiles.WriteDeviceKey | crates/jmapserver/src/did/devicekeys.rs:74-79 | the device is authorised under its id |
| DeviceSessions.DeviceFiles.RemoveDeviceKey | crates/jmapserver/src/did/devicekeys.rs:113-132 | the key goes, and with it exactly the sessions of that device |
| DeviceSessions.DeviceFiles.IssueSessionToken | crates/jmapserver/src/did/devicekeys.rs:183-206 | a session file under the hash of the token |
| DeviceSessions.DeviceFiles.CheckSessionToken | crates/jmapserver/src/did/devicekeys.rs:213-220 | the device of an unexpired session, or nothing |
| DeviceSessions.FilesTellHistory | crates/jmapserver/src/did/devicekeys.rs:113-206 | a session file is there exactly for a token issued and not revoked since |
| DeviceSessions.TokenChecksExactly | crates/jmapserver/src/did/devicekeys.rs:213-220 | a token answers for a device exactly if it was issued to it, is unexpired, and the device has not been revoked since |

## Left out

- SmtpClient.SendOne: the TLS handshake is not modelled. It stops with `HandshakeBegun` once the server has agreed to one, so the theorem about delivery is for servers that do not get that far; the second greeting inside TLS is not modelled.
- Bytes above 127: lossy UTF-8 conversion, Unicode case folding and cuts at character boundaries are not modelled; `safe_filename` cuts at 200 characters.
- Quoted-printable and the HTML conversion: parameters of `Mime`, which never looks into what they return.
- Encoded words (`decode_words`), address lists and date parsing, and building RFC 5322 messages.
- The text of JSON files: an object comes back as it was written, so malformed `delta.json` and unknown fields are not modelled beyond message files that do not parse.
- Write errors, permissions and fsync, except for the crash points of the queue.
- Locks: every store, account and nonce operation is atomic.
- `put_mailboxes` on its own is not an operation of a run: it replaces the mailbox list without a record, and the change log is then silent about it by design.
- `Email/set`, `Email/copy`, `Email/import`: they go through `put`, `patch` and `delete`, which are modelled.
- `Thread/changes`: a projection of the message log.
- `queue/policy.rs`: the schedule and the classification of errors are parameters; only that the schedule stops somewhere is assumed, in `Queue.RetriesEnd` and `Queue.PassesEmptyTheQueue`.
- The text of the failure notice and its delivery to the sender's mailbox: a report is the id it is about.
- The order in which the system lists a directory: `Store` takes it as a parameter; `Queue` uses key order before the sort by age.
- Device login signatures and the encoding of tokens: `DeviceSessions` starts from the decoded token bytes.
- PgpWrap.ArmourIsReadExactly: a hidden value that is HTML, decoded text or a multipart with a boundary of its own is not covered, because what is read then is what the conversion makes of the body, or depends on where that boundary occurs in it.
- SHA-1 in the PGP boundary: `PgpWrap` takes the digest as a parameter and assumes only that it has no quote and no line ending and that the delimiter is not in the block.
- HTTP handlers, the setup page, metrics, Web Push, DKIM, OpenPGP and DID resolution.
