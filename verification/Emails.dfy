/** The stored message, as far as the store looks into it. */
module Emails {
  import opened Wrappers
  import opened Ordering

  type Id = string

  datatype Header = Header(name: string, value: string)

  datatype Email = Email(
    id: Id,
    threadId: Id,
    messageId: seq<string>,
    inReplyTo: seq<string>,
    references: seq<string>,
    headers: seq<Header>,
    receivedAt: Option<int>,
    keywords: map<string, bool>,
    mailboxIds: map<Id, bool>,
    content: string)

  type Messages = map<Id, Email>

  /** Every message is filed under its own id. */
  ghost predicate Keyed(msgs: Messages) {
    forall id :: id in msgs ==> msgs[id].id == id
  }

  /** The receive time, or the epoch when absent. */
  function SortKey(m: Email): int {
    match m.receivedAt case None => 0 case Some(t) => t
  }

  /** The messages in key order. */
  function Values(msgs: Messages): (r: seq<Email>)
    ensures |r| == |Sorted(msgs.Keys)|
    ensures forall i :: 0 <= i < |r| ==> Sorted(msgs.Keys)[i] in msgs && r[i] == msgs[Sorted(msgs.Keys)[i]]
  {
    var keys := Sorted(msgs.Keys);
    seq(|keys|, i requires 0 <= i < |keys| => msgs[keys[i]])
  }
}
