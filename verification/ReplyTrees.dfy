/**
 Threads are reply trees: when messages arrive parents first, two of them share a
 thread exactly when they answer, through however many steps, the same first message.
 */
module ReplyTrees {
  import opened Wrappers
  import opened Ordering
  import opened Emails
  import opened Threads
  import opened Store

  // ---- who answers whom -------------------------------------------------------------------------

  ghost function MidsOf(m: Email): set<string> {
    BareIds(m.messageId)
  }

  ghost function BareIds(mids: seq<string>): set<string> {
    set i | 0 <= i < |mids| && Bare(mids[i]) != "" :: Bare(mids[i])
  }

  ghost predicate Answers(child: Email, parent: Email) {
    child.inReplyTo != [] && Bare(child.inReplyTo[0]) in MidsOf(parent)
  }

  /** A message as it arrives over mail, with one reply reference at most. */
  ghost predicate Plain(m: Email) {
    && m.threadId == "" && GroupId(m.headers) == None
    && m.references == [] && |m.inReplyTo| <= 1
    && m.messageId != [] && Bare(m.messageId[0]) != ""
  }

  ghost predicate Arrivals(ms: seq<Email>) {
    && (forall i :: 0 <= i < |ms| ==> Plain(ms[i]))
    && (forall i, j :: 0 <= i < j < |ms| ==> ms[i].id != ms[j].id && MidsOf(ms[i]) !! MidsOf(ms[j]))
    && (forall i, j :: 0 <= i < |ms| && 0 <= j < |ms| && Answers(ms[i], ms[j]) ==> j <= i)
  }

  /** The message this one answers; answering oneself is answering nobody. */
  ghost function Parent(ms: seq<Email>, i: nat): (r: Option<nat>)
    requires Arrivals(ms) && i < |ms|
    ensures r.Some? ==> r.value < i && Answers(ms[i], ms[r.value])
    ensures r.None? ==> forall j :: 0 <= j < |ms| && j != i ==> !Answers(ms[i], ms[j])
  {
    if exists j :: 0 <= j < |ms| && j != i && Answers(ms[i], ms[j]) then
      var j :| 0 <= j < |ms| && j != i && Answers(ms[i], ms[j]);
      Some(j)
    else None
  }

  ghost function Root(ms: seq<Email>, i: nat): (r: nat)
    requires Arrivals(ms) && i < |ms|
    ensures r <= i
  {
    match Parent(ms, i)
    case None => i
    case Some(j) => Root(ms, j)
  }

  /** The thread of a tree is named after its first message. */
  ghost function ThreadOf(ms: seq<Email>, i: nat): Id
    requires Arrivals(ms) && i < |ms|
  {
    "thr-" + ms[Root(ms, i)].messageId[0]
  }

  ghost function StoredAs(ms: seq<Email>, i: nat): Email
    requires Arrivals(ms) && i < |ms|
  {
    ms[i].(threadId := ThreadOf(ms, i))
  }

  // ---- the index finds the parent -------------------------------------------------------------------

  lemma BareIdsSnoc(mids: seq<string>, mid: string)
    ensures BareIds(mids + [mid]) == BareIds(mids) + if Bare(mid) == "" then {} else {Bare(mid)}
  {
    hide Bare;
    var all := mids + [mid];
    forall k | k in BareIds(mids) ensures k in BareIds(all) {
      var i :| 0 <= i < |mids| && Bare(mids[i]) == k;
      assert all[i] == mids[i];
    }
    assert all[|mids|] == mid;
  }

  lemma {:induction false} IndexMidsHolds(index: Index, mids: seq<string>, tid: Id)
    ensures var r := IndexMids(index, mids, tid);
            && r.Keys == index.Keys + BareIds(mids)
            && forall k :: k in r ==> r[k] == if k in BareIds(mids) then tid else index[k]
  {
    hide Bare;
    if mids != [] {
      var init, mid := mids[..|mids| - 1], mids[|mids| - 1];
      IndexMidsHolds(index, init, tid);
      assert mids == init + [mid];
      BareIdsSnoc(init, mid);
      hide BareIds;
    }
  }

  ghost predicate MidsDiffer(stored: seq<Email>) {
    forall i, j :: 0 <= i < j < |stored| ==> MidsOf(stored[i]) !! MidsOf(stored[j])
  }

  /** A Message-ID leads to the thread of the one message that bears it. */
  lemma {:induction false} IndexHolds(stored: seq<Email>, i: nat, k: string)
    requires MidsDiffer(stored) && i < |stored| && k in MidsOf(stored[i])
    ensures k in IndexOf(stored) && IndexOf(stored)[k] == stored[i].threadId
    decreases |stored|
  {
    hide BareIds;
    var init, last := stored[..|stored| - 1], stored[|stored| - 1];
    IndexMidsHolds(IndexOf(init), last.messageId, last.threadId);
    if i < |init| {
      assert stored[i] == init[i];
      IndexHolds(init, i, k);
      assert MidsOf(stored[i]) !! MidsOf(last);
    }
  }

  lemma {:induction false} IndexOnly(stored: seq<Email>, k: string)
    requires k in IndexOf(stored)
    ensures exists i :: 0 <= i < |stored| && k in MidsOf(stored[i])
  {
    hide BareIds;
    var init, last := stored[..|stored| - 1], stored[|stored| - 1];
    IndexMidsHolds(IndexOf(init), last.messageId, last.threadId);
    if k in MidsOf(last) {
      assert k in MidsOf(stored[|stored| - 1]);
    } else {
      IndexOnly(init, k);
      var i :| 0 <= i < |init| && k in MidsOf(init[i]);
      assert stored[i] == init[i];
    }
  }

  lemma IndexMisses(stored: seq<Email>, k: string)
    requires forall i :: 0 <= i < |stored| ==> k !in MidsOf(stored[i])
    ensures k !in IndexOf(stored)
  {
    hide IndexOf, MidsOf;
    if k in IndexOf(stored) {
      IndexOnly(stored, k);
    }
  }

  // ---- over a run ------------------------------------------------------------------------------------

  /** The store after the first n arrivals. */
  ghost predicate Holds(ms: seq<Email>, n: nat, msgs: Messages)
    requires Arrivals(ms) && n <= |ms|
  {
    && (forall i :: 0 <= i < n ==> ms[i].id in msgs && msgs[ms[i].id] == StoredAs(ms, i))
    && (forall id :: id in msgs ==> exists i :: 0 <= i < n && ms[i].id == id)
  }

  /** Every stored message is one of the arrivals. */
  lemma ValueIsArrival(ms: seq<Email>, n: nat, msgs: Messages, x: nat) returns (i: nat)
    requires Arrivals(ms) && n <= |ms| && Holds(ms, n, msgs) && x < |Values(msgs)|
    ensures i < n && Values(msgs)[x] == StoredAs(ms, i) && ms[i].id == Sorted(msgs.Keys)[x]
  {
    hide Sorted, Arrivals, StoredAs;
    var id := Sorted(msgs.Keys)[x];
    i :| 0 <= i < n && ms[i].id == id;
  }

  lemma ArrivalIsValue(ms: seq<Email>, n: nat, msgs: Messages, i: nat) returns (x: nat)
    requires Arrivals(ms) && n <= |ms| && Holds(ms, n, msgs) && i < n
    ensures x < |Values(msgs)| && Values(msgs)[x] == StoredAs(ms, i)
  {
    hide Arrivals, StoredAs;
    assert ms[i].id in Sorted(msgs.Keys);
    x :| 0 <= x < |Sorted(msgs.Keys)| && Sorted(msgs.Keys)[x] == ms[i].id;
  }

  lemma ValuesDiffer(ms: seq<Email>, n: nat, msgs: Messages)
    requires Arrivals(ms) && n <= |ms| && Holds(ms, n, msgs)
    ensures MidsDiffer(Values(msgs))
  {
    var vs := Values(msgs);
    forall x, y | 0 <= x < y < |vs| ensures MidsOf(vs[x]) !! MidsOf(vs[y]) {
      var i := ValueIsArrival(ms, n, msgs, x);
      var j := ValueIsArrival(ms, n, msgs, y);
      if i == j {
        AscendingDistinct(Sorted(msgs.Keys), x, y);
      }
      hide BareIds;
      assert MidsOf(ms[i]) !! MidsOf(ms[j]);
    }
  }

  lemma ResolvesToParent(ms: seq<Email>, n: nat, msgs: Messages)
    requires Arrivals(ms) && n < |ms| && Holds(ms, n, msgs)
    ensures Resolved(msgs, ms[n]) == ThreadOf(ms, n)
  {
    hide Holds, BareIds;
    var m, stored := ms[n], Values(msgs);
    var index := IndexOf(stored);
    ValuesDiffer(ms, n, msgs);
    assert Plain(m);
    assert m.inReplyTo + m.references == m.inReplyTo;
    assert m.messageId[0] != "";
    if Parent(ms, n).Some? {
      var p := Parent(ms, n).value;
      var x := ArrivalIsValue(ms, n, msgs, p);
      IndexHolds(stored, x, Bare(m.inReplyTo[0]));
      hide Bare;
      assert FirstKnown(index, m.inReplyTo) == Some(ThreadOf(ms, p));
    } else {
      if m.inReplyTo != [] {
        forall x | 0 <= x < |stored| ensures Bare(m.inReplyTo[0]) !in MidsOf(stored[x]) {
          var i := ValueIsArrival(ms, n, msgs, x);
          assert !Answers(m, ms[i]);
        }
        IndexMisses(stored, Bare(m.inReplyTo[0]));
      }
      hide Bare;
      assert m.inReplyTo != [] ==> m.inReplyTo == [m.inReplyTo[0]] && m.inReplyTo[1..] == [];
      assert FirstKnown(index, m.inReplyTo) == None;
    }
  }

  function Puts(ms: seq<Email>): seq<Op> {
    seq(|ms|, i requires 0 <= i < |ms| => Put(ms[i]))
  }

  lemma RunStep(ms: seq<Email>, n: nat)
    requires 0 < n <= |ms|
    ensures Run(BLANK, Puts(ms)[..n]) == PutState(Run(BLANK, Puts(ms)[..n - 1]), ms[n - 1])
  {
    hide PutState;
    var ops := Puts(ms)[..n];
    assert ops[..n - 1] == Puts(ms)[..n - 1];
  }

  lemma {:induction false} RunHolds(ms: seq<Email>, n: nat)
    requires Arrivals(ms) && n <= |ms|
    ensures Holds(ms, n, Run(BLANK, Puts(ms)[..n]).msgs)
    decreases n
  {
    if n > 0 {
      RunHolds(ms, n - 1);
      hide *;
      var st := Run(BLANK, Puts(ms)[..n - 1]);
      ResolvesToParent(ms, n - 1, st.msgs);
      PutsStored(ms, n, st);
      AddHolds(ms, n, st.msgs);
      RunStep(ms, n);
    }
  }

  lemma PutsStored(ms: seq<Email>, n: nat, st: State)
    requires Arrivals(ms) && 0 < n <= |ms| && Resolved(st.msgs, ms[n - 1]) == ThreadOf(ms, n - 1)
    ensures PutState(st, ms[n - 1]).msgs == st.msgs[ms[n - 1].id := StoredAs(ms, n - 1)]
  {
    assert Plain(ms[n - 1]);
    hide Resolved, ThreadOf, BareIds, Arrivals, Plain, FileName;
  }

  lemma AddHolds(ms: seq<Email>, n: nat, before: Messages)
    requires Arrivals(ms) && 0 < n <= |ms| && Holds(ms, n - 1, before)
    ensures Holds(ms, n, before[ms[n - 1].id := StoredAs(ms, n - 1)])
  {
    hide StoredAs, MidsOf, Answers, Plain;
    var msgs := before[ms[n - 1].id := StoredAs(ms, n - 1)];
    forall i | 0 <= i < n ensures ms[i].id in msgs && msgs[ms[i].id] == StoredAs(ms, i) {
      assert i < n - 1 ==> ms[i].id != ms[n - 1].id;
    }
    forall id | id in msgs ensures exists i :: 0 <= i < n && ms[i].id == id {
      if id == ms[n - 1].id {
      } else {
        var i :| 0 <= i < n - 1 && ms[i].id == id;
      }
    }
  }

  lemma SharedMid(ms: seq<Email>, a: nat, b: nat, k: string)
    requires Arrivals(ms) && a < |ms| && b < |ms| && k in MidsOf(ms[a]) && k in MidsOf(ms[b])
    ensures a == b
  {
    hide MidsOf, Answers, Plain;
  }

  lemma ThreadsOfRootsDiffer(ms: seq<Email>, i: nat, j: nat)
    requires Arrivals(ms) && i < |ms| && j < |ms|
    ensures ThreadOf(ms, i) == ThreadOf(ms, j) <==> Root(ms, i) == Root(ms, j)
  {
    var a, b := Root(ms, i), Root(ms, j);
    assert Plain(ms[a]) && Plain(ms[b]);
    var s, t := ms[a].messageId[0], ms[b].messageId[0];
    assert ("thr-" + s)[4..] == s && ("thr-" + t)[4..] == t;
    assert Bare(s) in MidsOf(ms[a]) && Bare(t) in MidsOf(ms[b]);
    if s == t {
      SharedMid(ms, a, b, Bare(s));
    }
  }

  lemma HoldsThread(ms: seq<Email>, msgs: Messages, i: nat)
    requires Arrivals(ms) && Holds(ms, |ms|, msgs) && i < |ms|
    ensures ms[i].id in msgs && msgs[ms[i].id].threadId == ThreadOf(ms, i) != ""
  {
  }

  /**
   After any such run two messages have the same thread id exactly when they have the
   same root, and `Thread/get` for the thread of one lists the other exactly then.
   */
  lemma ThreadsAreReplyTrees(ms: seq<Email>, i: nat, j: nat)
    requires Arrivals(ms) && i < |ms| && j < |ms|
    ensures var msgs := Run(BLANK, Puts(ms)).msgs;
            && ms[i].id in msgs && ms[j].id in msgs
            && (msgs[ms[i].id].threadId == msgs[ms[j].id].threadId <==> Root(ms, i) == Root(ms, j))
            && Members(msgs, msgs[ms[i].id].threadId).Some?
            && (ms[j].id in Members(msgs, msgs[ms[i].id].threadId).value <==> Root(ms, i) == Root(ms, j))
  {
    assert Puts(ms)[..|ms|] == Puts(ms);
    RunHolds(ms, |ms|);
    var msgs := Run(BLANK, Puts(ms)).msgs;
    ThreadsOfRootsDiffer(ms, i, j);
    assert Keyed(msgs) by {
      forall id | id in msgs ensures msgs[id].id == id {
        var k :| 0 <= k < |ms| && ms[k].id == id;
        assert msgs[ms[k].id] == StoredAs(ms, k);
      }
    }
    hide *;
    HoldsThread(ms, msgs, i);
    HoldsThread(ms, msgs, j);
    ThreadsPartition(msgs, ThreadOf(ms, i));
  }
}
