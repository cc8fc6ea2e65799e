/**
 Conversations: which thread a new message joins, and the members of a thread,
 oldest first.
 */
module Threads {
  import opened Wrappers
  import opened Text
  import opened Ordering
  import opened Emails
  import Listing

  // ---- resolving a thread id ------------------------------------------------------------------

  predicate IsBracket(c: char) {
    c == '<' || c == '>'
  }

  function TrimLeft(s: string): string {
    if s != "" && IsBracket(s[0]) then TrimLeft(s[1..]) else s
  }

  function TrimRight(s: string): string {
    if s != "" && IsBracket(s[|s| - 1]) then TrimRight(s[..|s| - 1]) else s
  }

  /** `trim_matches(['<', '>'])`. */
  function Bare(s: string): string {
    TrimRight(TrimLeft(s))
  }

  /** The value of the first non-empty Chat-Group-Id header. */
  function GroupId(headers: seq<Header>): Option<string> {
    if headers == [] then None
    else if EqIgnoreCase(headers[0].name, "Chat-Group-Id") && headers[0].value != "" then Some(headers[0].value)
    else GroupId(headers[1..])
  }

  type Index = map<string, Id>

  /** Message-ID to thread id; what comes later wins. */
  function IndexMids(index: Index, mids: seq<string>, threadId: Id): Index {
    if mids == [] then index
    else
      var before := IndexMids(index, mids[..|mids| - 1], threadId);
      var k := Bare(mids[|mids| - 1]);
      if k == "" then before else before[k := threadId]
  }

  function IndexOf(stored: seq<Email>): Index {
    if stored == [] then map[]
    else
      var last := stored[|stored| - 1];
      IndexMids(IndexOf(stored[..|stored| - 1]), last.messageId, last.threadId)
  }

  predicate Names(index: Index, reference: string) {
    Bare(reference) in index && index[Bare(reference)] != ""
  }

  function FirstKnown(index: Index, references: seq<string>): Option<Id> {
    if references == [] then None
    else if Names(index, references[0]) then Some(index[Bare(references[0])])
    else FirstKnown(index, references[1..])
  }

  function NewThread(msg: Email): Id {
    if msg.messageId != [] && msg.messageId[0] != "" then "thr-" + msg.messageId[0] else "thr-" + msg.id
  }

  function Resolved(msgs: Messages, msg: Email): Id {
    match GroupId(msg.headers)
    case Some(group) => "thr-group-" + group
    case None =>
      match FirstKnown(IndexOf(Values(msgs)), msg.inReplyTo + msg.references)
      case Some(tid) => tid
      case None => NewThread(msg)
  }

  method BuildIndex(stored: seq<Email>) returns (byMsgId: Index)
    ensures byMsgId == IndexOf(stored)
  {
    hide Bare;
    byMsgId := map[];
    for i := 0 to |stored|
      invariant byMsgId == IndexOf(stored[..i])
    {
      assert stored[..i + 1][..i] == stored[..i];
      var mids := stored[i].messageId;
      ghost var before := byMsgId;
      for j := 0 to |mids|
        invariant byMsgId == IndexMids(before, mids[..j], stored[i].threadId)
      {
        assert mids[..j + 1][..j] == mids[..j];
        var k := Bare(mids[j]);
        if k != "" {
          byMsgId := byMsgId[k := stored[i].threadId];
        }
      }
      assert mids[..|mids|] == mids;
    }
    assert stored[..|stored|] == stored;
  }

  method ResolveThreadId(msgs: Messages, msg: Email) returns (tid: Id)
    ensures tid == Resolved(msgs, msg)
  {
    hide Bare, Values, EqIgnoreCase, IndexMids, NewThread;
    for i := 0 to |msg.headers|
      invariant GroupId(msg.headers) == GroupId(msg.headers[i..])
    {
      assert msg.headers[i..][1..] == msg.headers[i + 1..];
      var h := msg.headers[i];
      if EqIgnoreCase(h.name, "Chat-Group-Id") && h.value != "" {
        return "thr-group-" + h.value;
      }
    }
    var byMsgId := BuildIndex(Values(msgs));
    var references := msg.inReplyTo + msg.references;
    for i := 0 to |references|
      invariant FirstKnown(byMsgId, references) == FirstKnown(byMsgId, references[i..])
    {
      assert references[i..][1..] == references[i + 1..];
      var k := Bare(references[i]);
      if k in byMsgId && byMsgId[k] != "" {
        return byMsgId[k];
      }
    }
    tid := NewThread(msg);
  }

  // ---- Thread/get --------------------------------------------------------------------------------

  type Entry = (int, Id)

  /** Oldest first, ties by id: the order of the pairs. */
  predicate Older(a: Entry, b: Entry) {
    a.0 < b.0 || (a.0 == b.0 && Less(a.1, b.1))
  }

  function InsertEntry(s: seq<Entry>, x: Entry): seq<Entry> {
    if s == [] then [x]
    else if Older(x, s[0]) then [x] + s
    else [s[0]] + InsertEntry(s[1..], x)
  }

  /** `entries.sort()`. */
  function SortEntries(s: seq<Entry>): seq<Entry> {
    if s == [] then [] else InsertEntry(SortEntries(s[..|s| - 1]), s[|s| - 1])
  }

  function EntriesOf(all: seq<Email>, tid: Id): seq<Entry> {
    if all == [] then []
    else
      var last := all[|all| - 1];
      EntriesOf(all[..|all| - 1], tid) + if last.threadId == tid then [Listing.TimedId(last)] else []
  }

  /** The members of one thread; None for a thread nobody is in. */
  function Members(msgs: Messages, tid: Id): Option<seq<Id>> {
    var entries := SortEntries(EntriesOf(Listing.All(msgs), tid));
    if tid == "" || entries == [] then None else Some(Listing.Map(entries, Listing.IdOf))
  }

  type Groups = map<Id, seq<Entry>>

  function ByThread(all: seq<Email>): Groups {
    if all == [] then map[]
    else
      var groups := ByThread(all[..|all| - 1]);
      var last := all[|all| - 1];
      if last.threadId == "" then groups
      else
        var entries := if last.threadId in groups then groups[last.threadId] else [];
        groups[last.threadId := entries + [Listing.TimedId(last)]]
  }

  lemma {:induction false} GroupsHoldEntries(all: seq<Email>, tid: Id)
    ensures tid in ByThread(all) <==> tid != "" && EntriesOf(all, tid) != []
    ensures tid in ByThread(all) ==> ByThread(all)[tid] == EntriesOf(all, tid)
  {
    if all != [] {
      GroupsHoldEntries(all[..|all| - 1], tid);
    }
  }

  /** Group every message by thread, sort each group, then look the wanted ones up. */
  method ThreadGet(msgs: Messages, ids: seq<Id>) returns (list: seq<(Id, seq<Id>)>, notFound: seq<Id>)
    ensures list == Found(msgs, ids) && notFound == Missing(msgs, ids)
  {
    hide Listing.All, SortEntries;
    var all := Listing.All(msgs);
    var byThread: Groups := map[];
    for i := 0 to |all|
      invariant byThread == ByThread(all[..i])
    {
      assert all[..i + 1][..i] == all[..i];
      var m := all[i];
      if m.threadId != "" {
        var entries := if m.threadId in byThread then byThread[m.threadId] else [];
        byThread := byThread[m.threadId := entries + [Listing.TimedId(m)]];
      }
    }
    assert all[..|all|] == all;
    byThread := map tid | tid in byThread :: SortEntries(byThread[tid]);
    list, notFound := [], [];
    for i := 0 to |ids|
      invariant list == Found(msgs, ids[..i]) && notFound == Missing(msgs, ids[..i])
    {
      assert ids[..i + 1][..i] == ids[..i];
      var tid := ids[i];
      GroupsHoldEntries(all, tid);
      SortedEmpty(EntriesOf(all, tid));
      if tid in byThread {
        list := list + [(tid, Listing.Map(byThread[tid], Listing.IdOf))];
      } else {
        notFound := notFound + [tid];
      }
    }
    assert ids[..|ids|] == ids;
  }

  lemma SortedEmpty(s: seq<Entry>)
    ensures SortEntries(s) == [] <==> s == []
  {
  }

  function Found(msgs: Messages, ids: seq<Id>): seq<(Id, seq<Id>)> {
    if ids == [] then []
    else
      var tid := ids[|ids| - 1];
      Found(msgs, ids[..|ids| - 1])
      + match Members(msgs, tid) case None => [] case Some(members) => [(tid, members)]
  }

  function Missing(msgs: Messages, ids: seq<Id>): seq<Id> {
    if ids == [] then []
    else
      var tid := ids[|ids| - 1];
      Missing(msgs, ids[..|ids| - 1]) + if Members(msgs, tid).None? then [tid] else []
  }

  // ---- what the lists are --------------------------------------------------------------------------

  ghost predicate OldestFirst(s: seq<Entry>) {
    forall i, j :: 0 <= i < j < |s| ==> Older(s[i], s[j])
  }

  lemma OlderTotal(a: Entry, b: Entry)
    requires a.1 != b.1
    ensures Older(a, b) || Older(b, a)
  {
    LessTotal(a.1, b.1);
  }

  lemma OlderTransitive(a: Entry, b: Entry, c: Entry)
    requires Older(a, b) && Older(b, c)
    ensures Older(a, c)
  {
    if a.0 == b.0 == c.0 {
      LessTransitive(a.1, b.1, c.1);
    }
  }

  lemma {:induction false} InsertEntryContents(s: seq<Entry>, x: Entry)
    ensures multiset(InsertEntry(s, x)) == multiset(s) + multiset{x}
  {
    if s != [] {
      assert s == [s[0]] + s[1..];
      InsertEntryContents(s[1..], x);
    }
  }

  lemma {:induction false} SortEntriesContents(s: seq<Entry>)
    ensures multiset(SortEntries(s)) == multiset(s)
  {
    if s != [] {
      SortEntriesContents(s[..|s| - 1]);
      InsertEntryContents(SortEntries(s[..|s| - 1]), s[|s| - 1]);
      assert s == s[..|s| - 1] + [s[|s| - 1]];
    }
  }

  lemma {:induction false} InsertEntrySorted(s: seq<Entry>, x: Entry)
    requires OldestFirst(s) && forall i :: 0 <= i < |s| ==> s[i].1 != x.1
    ensures OldestFirst(InsertEntry(s, x))
  {
    if s != [] {
      OlderTotal(x, s[0]);
      if Older(x, s[0]) {
        forall j | 0 < j < |s| ensures Older(x, s[j]) {
          OlderTransitive(x, s[0], s[j]);
        }
      } else {
        InsertEntrySorted(s[1..], x);
        InsertEntryContents(s[1..], x);
        var rest := InsertEntry(s[1..], x);
        forall j | 0 <= j < |rest| ensures Older(s[0], rest[j]) {
          Listing.MemberOf(rest, s[1..] + [x], rest[j]);
        }
      }
    }
  }

  ghost predicate DistinctIds(s: seq<Entry>) {
    forall i, j :: 0 <= i < j < |s| ==> s[i].1 != s[j].1
  }

  lemma {:induction false} SortEntriesSorted(s: seq<Entry>)
    requires DistinctIds(s)
    ensures OldestFirst(SortEntries(s))
  {
    if s != [] {
      var init, last := s[..|s| - 1], s[|s| - 1];
      SortEntriesSorted(init);
      SortEntriesContents(init);
      var sorted := SortEntries(init);
      forall i | 0 <= i < |sorted| ensures sorted[i].1 != last.1 {
        Listing.MemberOf(sorted, init, sorted[i]);
      }
      InsertEntrySorted(sorted, last);
    }
  }

  lemma {:induction false} EntriesMembers(all: seq<Email>, tid: Id, e: Entry)
    ensures e in EntriesOf(all, tid) <==> exists i :: 0 <= i < |all| && all[i].threadId == tid && Listing.TimedId(all[i]) == e
  {
    if all != [] {
      var init, last := all[..|all| - 1], all[|all| - 1];
      EntriesMembers(init, tid, e);
      if e in EntriesOf(all, tid) && e in EntriesOf(init, tid) {
        var i :| 0 <= i < |init| && init[i].threadId == tid && Listing.TimedId(init[i]) == e;
        assert all[i] == init[i];
      } else if e in EntriesOf(all, tid) {
        assert Listing.TimedId(all[|all| - 1]) == e;
      }
      if i :| 0 <= i < |all| && all[i].threadId == tid && Listing.TimedId(all[i]) == e {
        assert i < |init| ==> init[i] == all[i];
      }
    }
  }

  ghost predicate IdsDiffer(all: seq<Email>) {
    forall i, j :: 0 <= i < j < |all| ==> all[i].id != all[j].id
  }

  lemma {:induction false} EntriesDistinct(all: seq<Email>, tid: Id)
    requires IdsDiffer(all)
    ensures DistinctIds(EntriesOf(all, tid))
  {
    if all != [] {
      var init, last := all[..|all| - 1], all[|all| - 1];
      EntriesDistinct(init, tid);
      var entries := EntriesOf(init, tid);
      forall i | 0 <= i < |entries| ensures entries[i].1 != last.id {
        EntriesMembers(init, tid, entries[i]);
        var k :| 0 <= k < |init| && init[k].threadId == tid && Listing.TimedId(init[k]) == entries[i];
        assert init[k] == all[k];
      }
    }
  }

  lemma AllIdsDiffer(msgs: Messages)
    requires Keyed(msgs)
    ensures IdsDiffer(Listing.All(msgs))
  {
    var all := Listing.All(msgs);
    Listing.AllIsOrdered(msgs);
    forall i, j | 0 <= i < j < |all| ensures all[i].id != all[j].id {
      Listing.BeforeIsStrict(all[i], all[j]);
      assert all[i] in all && all[j] in all;
    }
  }

  /**
   Thread lists partition the store: a message is in the list of its own thread and
   in no other, once, in strictly increasing order of time and id.
   */
  lemma ThreadsPartition(msgs: Messages, tid: Id)
    requires Keyed(msgs) && tid != ""
    ensures Members(msgs, tid).None? <==> forall id :: id in msgs ==> msgs[id].threadId != tid
    ensures Members(msgs, tid).Some? ==>
              var ids := Members(msgs, tid).value;
              && (forall id :: id in ids <==> id in msgs && msgs[id].threadId == tid)
              && (forall i, j :: 0 <= i < j < |ids| ==>
                    && ids[i] in msgs && ids[j] in msgs
                    && Older(Listing.TimedId(msgs[ids[i]]), Listing.TimedId(msgs[ids[j]])))
  {
    var all := Listing.All(msgs);
    var entries := EntriesOf(all, tid);
    var sorted := SortEntries(entries);
    AllIdsDiffer(msgs);
    EntriesDistinct(all, tid);
    SortEntriesSorted(entries);
    SortEntriesContents(entries);
    SortedEmpty(entries);
    hide SortEntries, EntriesOf, Listing.All, Older;
    forall e: Entry ensures e in sorted <==> InThread(msgs, tid, e) {
      if e in sorted {
        Listing.MemberOf(sorted, entries, e);
      }
      if e in entries {
        Listing.MemberOf(entries, sorted, e);
      }
      EntryOf(msgs, tid, e);
    }
    forall id | id in msgs && msgs[id].threadId == tid ensures Listing.TimedId(msgs[id]) in sorted {
      assert InThread(msgs, tid, Listing.TimedId(msgs[id]));
    }
    assert sorted != [] ==> InThread(msgs, tid, sorted[0]);
    var ids := Listing.Map(sorted, Listing.IdOf);
    forall id ensures id in ids <==> id in msgs && msgs[id].threadId == tid {
      if id in ids {
        var i :| 0 <= i < |ids| && ids[i] == id;
        assert sorted[i] in sorted;
      }
      if id in msgs && msgs[id].threadId == tid {
        var i :| 0 <= i < |sorted| && sorted[i] == Listing.TimedId(msgs[id]);
        assert ids[i] == id;
      }
    }
    forall i, j | 0 <= i < j < |ids|
      ensures && ids[i] in msgs && ids[j] in msgs
              && Older(Listing.TimedId(msgs[ids[i]]), Listing.TimedId(msgs[ids[j]]))
    {
      assert sorted[i] in sorted && sorted[j] in sorted;
    }
  }

  ghost predicate InThread(msgs: Messages, tid: Id, e: Entry) {
    e.1 in msgs && msgs[e.1].threadId == tid && Listing.TimedId(msgs[e.1]) == e
  }

  lemma EntryOf(msgs: Messages, tid: Id, e: Entry)
    requires Keyed(msgs)
    ensures e in EntriesOf(Listing.All(msgs), tid) <==> InThread(msgs, tid, e)
  {
    var all := Listing.All(msgs);
    EntriesMembers(all, tid, e);
    Listing.AllIsOrdered(msgs);
    if i :| 0 <= i < |all| && all[i].threadId == tid && Listing.TimedId(all[i]) == e {
      assert all[i] in all;
    }
    if InThread(msgs, tid, e) {
      assert msgs[e.1] in all;
    }
  }
}
