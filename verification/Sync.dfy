/**
 Incremental sync over whole runs: what a client is told brings the ids it had to the
 ids there are, whatever the store went through in between.
 */
module Sync {
  import opened Wrappers
  import opened ChangeLog
  import opened Ordering
  import opened Emails
  import opened Mailboxes
  import opened Store

  // ---- the message log -------------------------------------------------------------------------

  /** The log describes the messages there are. */
  ghost predicate LogFits(st: State) {
    st.state >= 0 && ValidLog(st.changes, st.state) && IdsAt(st.changes, st.state) == st.msgs.Keys
  }

  /** A later log: the same records as far as the earlier one went. */
  ghost predicate Extends(earlier: Log, n: int, later: Log, m: int) {
    n <= m && forall v :: 0 < v <= n ==> v in earlier && v in later && later[v] == earlier[v]
  }

  lemma {:induction false} SameIds(earlier: Log, n: int, later: Log, m: int, v: int)
    requires Extends(earlier, n, later, m) && v <= n
    ensures IdsAt(earlier, v) == IdsAt(later, v)
    decreases v
  {
    if v > 0 {
      SameIds(earlier, n, later, m, v - 1);
    }
  }

  lemma ExtendsTransitive(a: Log, n: int, b: Log, m: int, c: Log, k: int)
    requires Extends(a, n, b, m) && Extends(b, m, c, k)
    ensures Extends(a, n, c, k)
  {
  }

  lemma OldRecord(log: Log, n: int, log': Log, v: int)
    requires Extends(log, n, log', n + 1) && 0 < v <= n
    ensures v in log && v in log' && log'[v] == log[v] && IdsAt(log', v - 1) == IdsAt(log, v - 1)
  {
    SameIds(log, n, log', n + 1, v - 1);
    hide IdsAt;
  }

  lemma LogSnoc(log: Log, n: int, rec: Record)
    requires n >= 0 && Contiguous(log, n)
    ensures var log' := log[n + 1 := rec];
            && Extends(log, n, log', n + 1) && Contiguous(log', n + 1) && IdsAt(log', n) == IdsAt(log, n)
            && IdsAt(log', n + 1) == IdsAt(log, n) + Elems(rec.added) - Elems(rec.removed)
  {
    var log' := log[n + 1 := rec];
    assert Extends(log, n, log', n + 1);
    SameIds(log, n, log', n + 1, n);
    assert IdsAt(log', n + 1) == IdsAt(log', n) + Elems(rec.added) - Elems(rec.removed);
    hide Elems;
  }

  lemma RecordFits(log: Log, n: int, rec: Record)
    requires n >= 0 && ValidLog(log, n) && Fits(IdsAt(log, n), rec)
    ensures var log' := log[n + 1 := rec];
            && Extends(log, n, log', n + 1) && ValidLog(log', n + 1)
            && IdsAt(log', n + 1) == IdsAt(log, n) + Elems(rec.added) - Elems(rec.removed)
  {
    hide Fits, IdsAt, Elems, Extends;
    var log' := log[n + 1 := rec];
    LogSnoc(log, n, rec);
    forall v | 0 < v <= n + 1 ensures Fits(IdsAt(log', v - 1), log'[v]) {
      if v <= n {
        OldRecord(log, n, log', v);
      }
    }
  }

  /** From one state to the next, with a record of how the ids moved. */
  lemma LoggedFits(st: State, st': State, rec: Record)
    requires LogFits(st) && Fits(st.msgs.Keys, rec)
    requires st'.state == st.state + 1 && st'.changes == st.changes[st.state + 1 := rec]
    requires st'.msgs.Keys == st.msgs.Keys + Elems(rec.added) - Elems(rec.removed)
    ensures LogFits(st') && Extends(st.changes, st.state, st'.changes, st'.state)
  {
    hide Fits, ValidLog, IdsAt, Extends;
    RecordFits(st.changes, st.state, rec);
  }

  lemma OneElem(id: Id)
    ensures Elems([id]) == {id} && Elems([]) == {}
  {
  }

  lemma PutFits(st: State, msg: Email)
    requires LogFits(st)
    ensures LogFits(PutState(st, msg)) && Extends(st.changes, st.state, PutState(st, msg).changes, PutState(st, msg).state)
  {
    hide LogFits, Extends, Threaded;
    var m := Threaded(st.msgs, msg);
    OneElem(m.id);
    if m.id !in st.msgs {
      LoggedFits(st, PutState(st, msg), Record([m.id], [], []));
    } else {
      assert st.msgs[m.id := m].Keys == st.msgs.Keys;
      SameLog(st, PutState(st, msg));
    }
  }

  lemma DeleteFits(st: State, id: Id)
    requires LogFits(st)
    ensures LogFits(DeleteState(st, id)) && Extends(st.changes, st.state, DeleteState(st, id).changes, DeleteState(st, id).state)
  {
    hide LogFits, Extends;
    OneElem(id);
    if id in st.msgs {
      LoggedFits(st, DeleteState(st, id), Record([], [], [id]));
    } else {
      SameLog(st, DeleteState(st, id));
    }
  }

  lemma PurgeFits(st: State)
    requires LogFits(st)
    ensures LogFits(PurgeState(st)) && Extends(st.changes, st.state, PurgeState(st).changes, PurgeState(st).state)
  {
    hide LogFits, Extends, WithoutJson;
    var removed := Sorted(st.msgs.Keys);
    assert Elems(removed) == st.msgs.Keys;
    OneElem("");
    hide Sorted, Elems;
    if removed != [] {
      LoggedFits(st, PurgeState(st), Record([], [], removed));
    } else {
      SameLog(st, PurgeState(st));
    }
  }

  lemma PatchFits(st: State, id: Id, patch: Patch, both: bool)
    requires LogFits(st)
    ensures var st' := PatchState(st, id, patch, both);
            LogFits(st') && Extends(st.changes, st.state, st'.changes, st'.state)
  {
    hide LogFits, Extends, PatchAll;
    OneElem(id);
    if id in st.msgs {
      assert st.msgs[id := PatchAll(st.msgs[id], patch, both)].Keys == st.msgs.Keys;
      LoggedFits(st, PatchState(st, id, patch, both), Record([], [id], []));
    } else {
      SameLog(st, st);
    }
  }

  lemma SameLog(st: State, st': State)
    requires LogFits(st) && st'.msgs.Keys == st.msgs.Keys && st'.state == st.state && st'.changes == st.changes
    ensures LogFits(st') && Extends(st.changes, st.state, st'.changes, st'.state)
  {
  }

  lemma StepFits(st: State, op: Op)
    requires LogFits(st)
    ensures LogFits(Apply(st, op)) && Extends(st.changes, st.state, Apply(st, op).changes, Apply(st, op).state)
  {
    hide LogFits, Extends, PutState, DeleteState, PurgeState, PatchState;
    match op
    case Put(msg) => PutFits(st, msg);
    case Delete(id) => DeleteFits(st, id);
    case Purge => PurgeFits(st);
    case PatchMessage(id, patch, both) => PatchFits(st, id, patch, both);
    case _ => SameLog(st, Apply(st, op));
  }

  lemma AtMostOneState(st: State, op: Op)
    ensures st.state <= Apply(st, op).state <= st.state + 1
  {
    hide SyncRecord, SetResult, Sorted, Threaded, PatchAll;
  }

  /** Which operations move the state, and what they say about it; rewriting a message is silent. */
  lemma LogsExactly(st: State, op: Op)
    ensures op.Put? ==>
              if op.msg.id in st.msgs then Apply(st, op).state == st.state && Apply(st, op).changes == st.changes
              else Apply(st, op).state == st.state + 1
                   && Apply(st, op).changes == st.changes[st.state + 1 := Record([op.msg.id], [], [])]
    ensures op.Delete? && op.id !in st.msgs ==> Apply(st, op).state == st.state && Apply(st, op).changes == st.changes
    ensures op.Purge? && st.msgs == map[] ==> Apply(st, op).state == st.state && Apply(st, op).changes == st.changes
    ensures op.PatchMessage? && op.target in st.msgs ==>
              Apply(st, op).state == st.state + 1 && Apply(st, op).changes == st.changes[st.state + 1 := Record([], [op.target], [])]
  {
    hide Sorted, PatchAll, IdsOf, SyncState, MailboxSetState, IdentitiesState, SubmissionState, Threads.Resolved, WithoutJson;
    PurgesNothing();
    assert st.msgs == map[] ==> st.msgs.Keys == {};
  }

  lemma PurgesNothing()
    ensures Sorted({}) == []
  {
  }

  /** A sync that brings no mailbox and takes none away does nothing at all, new names included. */
  lemma SyncIsSilent(st: State, mbs: seq<Mailbox>)
    ensures IdsOf(mbs) == IdsOf(MailboxesOf(st.disk)) <==> SyncState(st, mbs) == st
  {
    var existing := IdsOf(MailboxesOf(st.disk));
    assert (IdsOf(mbs) - existing == {} && existing - IdsOf(mbs) == {}) <==> IdsOf(mbs) == existing;
    hide IdsOf;
    PurgesNothing();
    SyncKeepsIds(MailboxesOf(st.disk), mbs);
  }

  lemma BlankFits()
    ensures LogFits(BLANK) && MailboxLogFits(BLANK)
  {
  }

  lemma {:induction false} RunFits(st: State, ops: seq<Op>)
    requires LogFits(st)
    ensures LogFits(Run(st, ops))
    decreases |ops|
  {
    if ops != [] {
      RunFits(st, ops[..|ops| - 1]);
      hide LogFits, Apply;
      StepFits(Run(st, ops[..|ops| - 1]), ops[|ops| - 1]);
    }
  }

  lemma {:induction false} RunExtends(st: State, ops: seq<Op>, p: nat)
    requires LogFits(st) && p <= |ops|
    ensures var before, after := Run(st, ops[..p]), Run(st, ops);
            Extends(before.changes, before.state, after.changes, after.state)
    decreases |ops|
  {
    hide LogFits, Apply, Extends;
    if p == |ops| {
      assert ops[..p] == ops;
      RunFits(st, ops);
      ExtendsItself(Run(st, ops));
    } else {
      var init := ops[..|ops| - 1];
      var before, middle, after := Run(st, ops[..p]), Run(st, init), Run(st, ops);
      assert init[..p] == ops[..p];
      RunExtends(st, init, p);
      RunFits(st, init);
      StepFits(middle, ops[|ops| - 1]);
      ExtendsTransitive(before.changes, before.state, middle.changes, middle.state, after.changes, after.state);
    }
  }

  lemma ExtendsItself(st: State)
    requires LogFits(st)
    ensures Extends(st.changes, st.state, st.changes, st.state)
  {
  }

  /** A client's state is one the store was in: some prefix of the run led to it. */
  lemma {:induction false} StatesAreReached(ops: seq<Op>, v: nat) returns (p: nat)
    requires v <= Run(BLANK, ops).state
    ensures p <= |ops| && Run(BLANK, ops[..p]).state == v
    decreases |ops|
  {
    if Run(BLANK, ops).state == v {
      p := |ops|;
      assert ops[..p] == ops;
    } else {
      var init := ops[..|ops| - 1];
      hide Apply;
      AtMostOneState(Run(BLANK, init), ops[|ops| - 1]);
      p := StatesAreReached(init, v);
      assert init[..p] == ops[..p];
    }
  }

  /**
   The answer to a client that last looked when the store was in one state, now that it
   is in another: it is given, its three sets are disjoint, they turn the ids there
   were into the ids there are, and the updated ids are exactly those that were patched
   and otherwise left alone.
   */
  ghost predicate SoundAnswer(before: State, now: State) {
    var answer := Answer(now.changes, before.state, now.state);
    && answer.Ok?
    && var cs := answer.value;
    && now.msgs.Keys == (before.msgs.Keys - cs.destroyed) + cs.created
    && cs.created !! cs.destroyed && cs.created !! cs.updated && cs.updated !! cs.destroyed
    && cs.updated <= before.msgs.Keys && cs.updated <= now.msgs.Keys
    && UpdatedIn(now.changes, before.state, now.state, cs.updated)
  }

  lemma LaterIsSound(before: State, now: State)
    requires LogFits(before) && LogFits(now) && Extends(before.changes, before.state, now.changes, now.state)
    ensures SoundAnswer(before, now)
  {
    hide Fold, IdsAt, UpdatedIn, TouchedIn;
    SameIds(before.changes, before.state, now.changes, now.state, before.state);
    FoldReplays(now.changes, now.state, before.state, now.state);
    UpdatedExactly(now.changes, now.state, before.state, now.state);
  }

  /** Change log soundness, over every run and for a client of every age. */
  lemma ChangesAreSound(st: State, ops: seq<Op>, p: nat)
    requires LogFits(st) && p <= |ops|
    ensures SoundAnswer(Run(st, ops[..p]), Run(st, ops))
  {
    hide *;
    RunFits(st, ops[..p]);
    RunFits(st, ops);
    RunExtends(st, ops, p);
    LaterIsSound(Run(st, ops[..p]), Run(st, ops));
  }

  /** A client that syncs from a new store's every state is told the truth. */
  lemma EveryStateIsServed(ops: seq<Op>, since: nat) returns (p: nat)
    requires since <= Run(BLANK, ops).state
    ensures p <= |ops| && Run(BLANK, ops[..p]).state == since && SoundAnswer(Run(BLANK, ops[..p]), Run(BLANK, ops))
  {
    hide *;
    p := StatesAreReached(ops, since);
    BlankFits();
    ChangesAreSound(BLANK, ops, p);
  }

  /** Syncing at an intermediate point and again now is syncing once. */
  lemma SyncComposes(st: State, ops: seq<Op>, p: nat, q: nat)
    requires LogFits(st) && p <= q <= |ops|
    ensures var first, second, now := Run(st, ops[..p]), Run(st, ops[..q]), Run(st, ops);
            && Answer(second.changes, first.state, second.state).Ok?
            && Answer(now.changes, second.state, now.state).Ok?
            && Answer(now.changes, first.state, now.state)
            == Ok(Combine(Answer(second.changes, first.state, second.state).value,
                          Answer(now.changes, second.state, now.state).value))
  {
    var first, second, now := Run(st, ops[..p]), Run(st, ops[..q]), Run(st, ops);
    assert ops[..q][..p] == ops[..p];
    RunFits(st, ops[..p]);
    RunFits(st, ops[..q]);
    RunFits(st, ops);
    RunExtends(st, ops[..q], p);
    RunExtends(st, ops, q);
    hide Run, Fold, IdsAt;
    FoldComposes(now.changes, now.state, first.state, second.state, now.state);
    SameFold(second.changes, second.state, now.changes, now.state, first.state, second.state);
  }

  lemma {:induction false} SameFold(earlier: Log, n: int, later: Log, m: int, since: int, cur: int)
    requires Extends(earlier, n, later, m) && 0 <= since && cur <= n
    ensures Fold(earlier, since, cur) == Fold(later, since, cur)
    decreases cur - since
  {
    if since < cur {
      SameFold(earlier, n, later, m, since, cur - 1);
    }
  }

  // ---- the mailbox log ---------------------------------------------------------------------------

  ghost predicate MailboxLogFits(st: State) {
    && st.mailboxState >= 0 && Grounded(st.mailboxChanges, st.mailboxState)
    && IdsAt(st.mailboxChanges, st.mailboxState) == IdsOf(MailboxesOf(st.disk))
  }

  lemma GroundedSnoc(log: Log, n: int, rec: Record)
    requires n >= 0 && Grounded(log, n) && Elems(rec.updated) <= IdsAt(log, n) + Elems(rec.added)
    ensures var log' := log[n + 1 := rec];
            && Extends(log, n, log', n + 1) && Grounded(log', n + 1)
            && IdsAt(log', n) == IdsAt(log, n)
            && IdsAt(log', n + 1) == IdsAt(log, n) + Elems(rec.added) - Elems(rec.removed)
  {
    hide IdsAt, Elems, Extends;
    var log' := log[n + 1 := rec];
    LogSnoc(log, n, rec);
    forall v | 0 < v <= n + 1 ensures Elems(log'[v].updated) <= IdsAt(log', v - 1) + Elems(log'[v].added) {
      if v <= n {
        OldRecord(log, n, log', v);
      }
    }
  }

  lemma MailboxLoggedFits(st: State, mbs: seq<Mailbox>, rec: Record)
    requires MailboxLogFits(st)
    requires IdsOf(mbs) == IdsOf(MailboxesOf(st.disk)) + Elems(rec.added) - Elems(rec.removed)
    requires Elems(rec.updated) <= IdsOf(MailboxesOf(st.disk)) + Elems(rec.added)
    ensures var st' := LogMailboxes(st, mbs, rec);
            && MailboxLogFits(st')
            && Extends(st.mailboxChanges, st.mailboxState, st'.mailboxChanges, st'.mailboxState)
  {
    hide IdsOf, Elems, Grounded, Extends;
    GroundedSnoc(st.mailboxChanges, st.mailboxState, rec);
  }

  lemma SameMailboxLog(st: State, st': State)
    requires MailboxLogFits(st) && st'.mailboxState == st.mailboxState && st'.mailboxChanges == st.mailboxChanges
    requires st'.disk.mailboxes == st.disk.mailboxes
    ensures MailboxLogFits(st')
    ensures Extends(st.mailboxChanges, st.mailboxState, st'.mailboxChanges, st'.mailboxState)
  {
  }

  lemma MailboxSyncFits(st: State, mbs: seq<Mailbox>)
    requires MailboxLogFits(st)
    ensures var st' := SyncState(st, mbs);
            && MailboxLogFits(st')
            && Extends(st.mailboxChanges, st.mailboxState, st'.mailboxChanges, st'.mailboxState)
  {
    hide MailboxLogFits, Extends, SyncRecord, LogMailboxes, IdsOf, Elems;
    SyncKeepsIds(MailboxesOf(st.disk), mbs);
    SyncUpdatesNone(MailboxesOf(st.disk), mbs);
    match SyncRecord(MailboxesOf(st.disk), mbs)
    case None => SameMailboxLog(st, st);
    case Some(rec) => MailboxLoggedFits(st, mbs, rec);
  }

  lemma SyncUpdatesNone(existing: seq<Mailbox>, incoming: seq<Mailbox>)
    ensures SyncRecord(existing, incoming).Some? ==> Elems(SyncRecord(existing, incoming).value.updated) == {}
  {
    hide IdsOf, Sorted;
  }

  lemma MailboxSetFits(st: State, req: SetRequest, hook: Hook)
    requires MailboxLogFits(st)
    ensures var st' := MailboxSetState(st, req, hook);
            && MailboxLogFits(st')
            && Extends(st.mailboxChanges, st.mailboxState, st'.mailboxChanges, st'.mailboxState)
  {
    hide MailboxLogFits, Extends, LogMailboxes, IdsOf, Elems, Drafted, Retain;
    SetKeepsIds(MailboxesOf(st.disk), req, hook);
    match SetResult(MailboxesOf(st.disk), req, hook)
    case None => SameMailboxLog(st, st);
    case Some(d) => MailboxLoggedFits(st, d.mbs, d.rec);
  }

  lemma MailboxStepFits(st: State, op: Op)
    requires MailboxLogFits(st)
    ensures MailboxLogFits(Apply(st, op))
    ensures Extends(st.mailboxChanges, st.mailboxState, Apply(st, op).mailboxChanges, Apply(st, op).mailboxState)
  {
    hide MailboxLogFits, Extends, SyncState, MailboxSetState;
    match op
    case SyncMailboxes(mbs) => MailboxSyncFits(st, mbs);
    case MailboxSet(req, hook) => MailboxSetFits(st, req, hook);
    case _ => SameMailboxLog(st, Apply(st, op));
  }

  lemma {:induction false} MailboxRunFits(st: State, ops: seq<Op>, p: nat)
    requires MailboxLogFits(st) && p <= |ops|
    ensures var before, after := Run(st, ops[..p]), Run(st, ops);
            && MailboxLogFits(before) && MailboxLogFits(after)
            && Extends(before.mailboxChanges, before.mailboxState, after.mailboxChanges, after.mailboxState)
    decreases |ops|
  {
    if ops == [] {
      assert ops[..p] == ops;
    } else {
      hide Apply, IdsOf;
      var init := ops[..|ops| - 1];
      if p < |ops| {
        assert init[..p] == ops[..p];
        MailboxRunFits(st, init, p);
        MailboxStepFits(Run(st, init), ops[|ops| - 1]);
      } else {
        assert ops[..p] == ops;
        MailboxRunFits(st, init, 0);
        MailboxStepFits(Run(st, init), ops[|ops| - 1]);
      }
    }
  }

  /**
   The same for mailboxes: the answer turns the ids there were into the ids there are,
   the updated ids are in both and none of them is destroyed, and what is in each set
   can be read off the records.
   */
  ghost predicate SoundMailboxAnswer(before: State, now: State) {
    var answer := Answer(now.mailboxChanges, before.mailboxState, now.mailboxState);
    && answer.Ok?
    && var cs := answer.value;
    && var log, since, cur := now.mailboxChanges, before.mailboxState, now.mailboxState;
    && IdsOf(MailboxesOf(now.disk)) == (IdsOf(MailboxesOf(before.disk)) - cs.destroyed) + cs.created
    && cs.created !! cs.destroyed && cs.updated !! cs.destroyed
    && cs.updated <= IdsOf(MailboxesOf(before.disk)) && cs.updated <= IdsOf(MailboxesOf(now.disk))
    && forall id :: && (id in cs.created <==> CreatedIn(log, since, cur, id))
                    && (id in cs.updated <==> ChangedIn(log, since, cur, id))
                    && (id in cs.destroyed <==> DestroyedIn(log, since, cur, id))
  }

  lemma LaterMailboxesAreSound(before: State, now: State)
    requires MailboxLogFits(before) && MailboxLogFits(now)
    requires Extends(before.mailboxChanges, before.mailboxState, now.mailboxChanges, now.mailboxState)
    ensures SoundMailboxAnswer(before, now)
  {
    hide Fold, IdsAt, IdsOf, TouchedIn, CreatedIn, ChangedIn, DestroyedIn;
    var log, since, cur := now.mailboxChanges, before.mailboxState, now.mailboxState;
    SameIds(before.mailboxChanges, since, log, cur, since);
    FoldReplays(log, cur, since, cur);
    forall id
      ensures && (id in Fold(log, since, cur).value.created <==> CreatedIn(log, since, cur, id))
              && (id in Fold(log, since, cur).value.updated <==> ChangedIn(log, since, cur, id))
              && (id in Fold(log, since, cur).value.destroyed <==> DestroyedIn(log, since, cur, id))
    {
      FoldExactly(log, cur, since, cur, id);
    }
    forall id | ChangedIn(log, since, cur, id)
      ensures id in IdsAt(log, since) && id in IdsAt(log, cur) && !DestroyedIn(log, since, cur, id)
    {
      UpdatedIsThere(log, cur, since, cur, id);
    }
  }

  lemma MailboxChangesAreSound(st: State, ops: seq<Op>, p: nat)
    requires MailboxLogFits(st) && p <= |ops|
    ensures SoundMailboxAnswer(Run(st, ops[..p]), Run(st, ops))
  {
    hide *;
    MailboxRunFits(st, ops, p);
    LaterMailboxesAreSound(Run(st, ops[..p]), Run(st, ops));
  }

  // ---- where mailboxes differ: an id created while it is there ---------------------------------------

  /** Reported both as created and as updated to a client that last looked before. */
  ghost predicate Overlaps(before: State, now: State, id: Id) {
    var answer := Answer(now.mailboxChanges, before.mailboxState, now.mailboxState);
    answer.Ok? && id in answer.value.created && id in answer.value.updated
  }

  /** Over every run, exactly: some record adds the id after one of the window updated it. */
  lemma MailboxesOverlapExactly(st: State, ops: seq<Op>, p: nat, id: Id)
    requires MailboxLogFits(st) && p <= |ops|
    ensures var before, now := Run(st, ops[..p]), Run(st, ops);
            Overlaps(before, now, id) <==>
              exists v, x :: AddedAgain(now.mailboxChanges, before.mailboxState, v, x, now.mailboxState, id)
  {
    hide *;
    var before, now := Run(st, ops[..p]), Run(st, ops);
    MailboxRunFits(st, ops, p);
    WindowOf(before, now);
    OverlapExactly(now.mailboxChanges, now.mailboxState, before.mailboxState, now.mailboxState, id);
    OverlapsIs(before, now, id);
  }

  lemma WindowOf(before: State, now: State)
    requires MailboxLogFits(before) && MailboxLogFits(now)
    requires Extends(before.mailboxChanges, before.mailboxState, now.mailboxChanges, now.mailboxState)
    ensures Grounded(now.mailboxChanges, now.mailboxState) && Contiguous(now.mailboxChanges, now.mailboxState)
    ensures 0 <= before.mailboxState <= now.mailboxState
  {
    hide IdsAt, IdsOf;
  }

  lemma OverlapsIs(before: State, now: State, id: Id)
    requires 0 <= before.mailboxState <= now.mailboxState
    ensures var answer := Fold(now.mailboxChanges, before.mailboxState, now.mailboxState);
            Overlaps(before, now, id) <==> answer.Ok? && id in answer.value.created && id in answer.value.updated
  {
    hide Fold;
  }

  /** The guard: `Mailbox/set` is let create an id that is in the list. */
  predicate CreatesAgain(st: State, op: Op, id: Id) {
    op.MailboxSet? && Creates(op.req, op.hook, id) && id in IdsOf(MailboxesOf(st.disk))
  }

  ghost predicate Recreates(st: State, op: Op) {
    exists id :: CreatesAgain(st, op, id)
  }

  ghost predicate NeverAgain(st: State, ops: seq<Op>, p: nat) {
    forall k :: p <= k < |ops| ==> !Recreates(Run(st, ops[..k]), ops[k])
  }

  lemma SyncAddsNew(existing: seq<Mailbox>, incoming: seq<Mailbox>)
    requires SyncRecord(existing, incoming).Some?
    ensures Elems(SyncRecord(existing, incoming).value.added) !! IdsOf(existing)
  {
    hide IdsOf;
  }

  lemma SetAddsNew(mbs: seq<Mailbox>, req: SetRequest, hook: Hook)
    requires forall id :: Creates(req, hook, id) ==> id !in IdsOf(mbs)
    ensures Elems(Drafted(mbs, req, hook).rec.added) !! IdsOf(mbs)
  {
    hide IdsOf, Drafted, Creates;
    forall id | id in Drafted(mbs, req, hook).rec.added ensures id !in IdsOf(mbs) {
      RecordsExactly(mbs, req, hook, id);
    }
  }

  lemma AddsNewSnoc(log: Log, n: int, since: int, rec: Record)
    requires n >= 0 && Contiguous(log, n) && 0 <= since && AddsNew(log, since, n)
    requires Elems(rec.added) !! IdsAt(log, n)
    ensures AddsNew(log[n + 1 := rec], since, n + 1)
  {
    hide IdsAt, Elems, Extends, Contiguous;
    var log' := log[n + 1 := rec];
    LogSnoc(log, n, rec);
    forall v | since < v <= n + 1 && v in log' ensures Elems(log'[v].added) !! IdsAt(log', v - 1) {
      if v <= n {
        OldRecord(log, n, log', v);
      }
    }
  }

  lemma MailboxLogStands(st: State)
    requires MailboxLogFits(st)
    ensures st.mailboxState >= 0 && Contiguous(st.mailboxChanges, st.mailboxState)
    ensures IdsAt(st.mailboxChanges, st.mailboxState) == IdsOf(MailboxesOf(st.disk))
  {
    hide IdsAt, IdsOf;
  }

  lemma StepAddsNew(st: State, op: Op, since: int)
    requires MailboxLogFits(st) && 0 <= since && AddsNew(st.mailboxChanges, since, st.mailboxState)
    requires !Recreates(st, op)
    ensures AddsNew(Apply(st, op).mailboxChanges, since, Apply(st, op).mailboxState)
  {
    hide SyncRecord, Drafted, IdsOf, Elems, MailboxLogFits, Contiguous, AddsNew, Creates, IdsAt, Retain;
    var mbs := MailboxesOf(st.disk);
    MailboxLogStands(st);
    match op
    case SyncMailboxes(incoming) =>
      match SyncRecord(mbs, incoming) {
        case None =>
        case Some(rec) =>
          SyncAddsNew(mbs, incoming);
          AddsNewSnoc(st.mailboxChanges, st.mailboxState, since, rec);
      }
    case MailboxSet(req, hook) =>
      forall id ensures Creates(req, hook, id) ==> id !in IdsOf(mbs) {
        assert !CreatesAgain(st, op, id);
      }
      SetAddsNew(mbs, req, hook);
      match SetResult(mbs, req, hook) {
        case None =>
        case Some(d) => AddsNewSnoc(st.mailboxChanges, st.mailboxState, since, d.rec);
      }
    case _ =>
  }

  lemma {:induction false} RunAddsNew(st: State, ops: seq<Op>, p: nat)
    requires MailboxLogFits(st) && p <= |ops| && NeverAgain(st, ops, p)
    ensures var before, now := Run(st, ops[..p]), Run(st, ops);
            AddsNew(now.mailboxChanges, before.mailboxState, now.mailboxState)
    decreases |ops|
  {
    if p == |ops| {
      assert ops[..p] == ops;
    } else {
      var init := ops[..|ops| - 1];
      assert forall k :: p <= k < |init| ==> init[..k] == ops[..k] && init[k] == ops[k];
      assert init[..p] == ops[..p];
      hide Apply, IdsOf, Recreates, AddsNew, MailboxLogFits;
      RunAddsNew(st, init, p);
      MailboxRunFits(st, init, p);
      MailboxLogStands(Run(st, ops[..p]));
      StepAddsNew(Run(st, init), ops[|ops| - 1], Run(st, ops[..p]).mailboxState);
    }
  }

  /** As long as no request creates an id that is there, the three sets are disjoint. */
  lemma NeverAgainIsDisjoint(st: State, ops: seq<Op>, p: nat, id: Id)
    requires MailboxLogFits(st) && p <= |ops| && NeverAgain(st, ops, p)
    ensures !Overlaps(Run(st, ops[..p]), Run(st, ops), id)
  {
    hide *;
    var before, now := Run(st, ops[..p]), Run(st, ops);
    MailboxRunFits(st, ops, p);
    RunAddsNew(st, ops, p);
    MailboxesOverlapExactly(st, ops, p, id);
    WindowOf(before, now);
    NewIdsDoNotOverlap(now.mailboxChanges, now.mailboxState, before.mailboxState, now.mailboxState, id);
  }

  /** An update of one mailbox that changes nothing in it. */
  function Touching(id: Id): SetRequest {
    SetRequest([], [(id, None)], [])
  }

  function Touch(id: Id, hook: Hook): Op {
    MailboxSet(Touching(id), hook)
  }

  /** The list and the log after an accepted request, or nothing happened. */
  ghost predicate Recorded(st: State, rec: Record, st': State) {
    if rec == UNCHANGED then st' == st
    else && st'.mailboxState == st.mailboxState + 1
         && st'.mailboxChanges == st.mailboxChanges[st.mailboxState + 1 := rec]
  }

  lemma SetRecords(st: State, op: Op)
    requires op.MailboxSet?
    ensures Recorded(st, Drafted(MailboxesOf(st.disk), op.req, op.hook).rec, Apply(st, op))
  {
    hide Drafted, Retain, Elems;
  }

  lemma TouchRecords(st: State, id: Id, hook: Hook)
    requires MailboxLogFits(st) && id in IdsOf(MailboxesOf(st.disk))
    ensures var rec, st' := Drafted(MailboxesOf(st.disk), Touching(id), hook).rec, Apply(st, Touch(id, hook));
            && id in rec.updated && id !in rec.added && id !in rec.removed
            && st'.mailboxState == st.mailboxState + 1
            && st'.mailboxChanges == st.mailboxChanges[st.mailboxState + 1 := rec]
  {
    hide *;
    TouchUpdates(id, hook);
    RecordsExactly(MailboxesOf(st.disk), Touching(id), hook, id);
    TouchIs(id, hook);
    SetRecords(st, Touch(id, hook));
    RecordedIs(st, Drafted(MailboxesOf(st.disk), Touching(id), hook).rec, Apply(st, Touch(id, hook)), id);
  }

  lemma TouchIs(id: Id, hook: Hook)
    ensures Touch(id, hook) == MailboxSet(Touching(id), hook)
  {
  }

  lemma TouchUpdates(id: Id, hook: Hook)
    ensures Updates(Touching(id), id) && !Creates(Touching(id), hook, id) && !Destroys(Touching(id), hook, id)
  {
    assert Touching(id).update[0].0 == id;
  }

  lemma RecordedIs(st: State, rec: Record, st': State, id: Id)
    requires Recorded(st, rec, st') && id in rec.updated
    ensures st'.mailboxState == st.mailboxState + 1
    ensures st'.mailboxChanges == st.mailboxChanges[st.mailboxState + 1 := rec]
  {
  }

  /** Nothing comes or goes by it. */
  lemma TouchKeepsIds(st: State, id: Id, hook: Hook)
    requires id in IdsOf(MailboxesOf(st.disk))
    ensures id in IdsOf(MailboxesOf(Apply(st, Touch(id, hook)).disk))
  {
    TouchUpdates(id, hook);
    RecordsExactly(MailboxesOf(st.disk), Touching(id), hook, id);
    SetKeepsIds(MailboxesOf(st.disk), Touching(id), hook);
    hide Drafted, Retain, IdsOf, Updates, Creates, Destroys;
  }

  lemma FoldTwo(log: Log, n: int, first: Record, second: Record, id: Id)
    requires id in first.updated && id !in first.added && id !in first.removed
    ensures var one := log[n + 1 := first];
            Fold(one, n, n + 1).Ok? && id !in Fold(one, n, n + 1).value.created
    ensures var two := log[n + 1 := first][n + 2 := second];
            && Fold(two, n, n + 2).Ok?
            && (id in Fold(two, n, n + 2).value.created && id in Fold(two, n, n + 2).value.updated
                <==> id in second.added && id !in second.removed)
  {
    var one := log[n + 1 := first];
    assert Fold(one, n, n) == Ok(NOTHING);
    var two := one[n + 2 := second];
    assert Fold(two, n, n) == Ok(NOTHING);
    assert Fold(two, n, n + 1) == Ok(FoldOne(NOTHING, first));
    assert Fold(two, n, n + 2) == Ok(FoldOne(FoldOne(NOTHING, first), second));
  }

  /**
   The guard is tight: after an update of a mailbox, a request overlaps with it exactly
   if it is let create that id again and does not destroy it at once.
   */
  lemma CreatedAgainOverlaps(st: State, id: Id, hook: Hook, op: Op)
    requires MailboxLogFits(st) && id in IdsOf(MailboxesOf(st.disk)) && op.MailboxSet?
    ensures Overlaps(st, Apply(Apply(st, Touch(id, hook)), op), id)
       <==> Creates(op.req, op.hook, id) && !Destroys(op.req, op.hook, id)
  {
    hide *;
    var middle := Apply(st, Touch(id, hook));
    var first := Drafted(MailboxesOf(st.disk), Touching(id), hook).rec;
    var second := Drafted(MailboxesOf(middle.disk), op.req, op.hook).rec;
    TouchRecords(st, id, hook);
    TouchKeepsIds(st, id, hook);
    RecordsExactly(MailboxesOf(middle.disk), op.req, op.hook, id);
    SetRecords(middle, op);
    MailboxLogStands(st);
    OverlapAfter(st, middle, Apply(middle, op), first, second, id);
  }

  lemma OverlapAfter(st: State, middle: State, now: State, first: Record, second: Record, id: Id)
    requires st.mailboxState >= 0 && middle.mailboxState == st.mailboxState + 1
    requires middle.mailboxChanges == st.mailboxChanges[st.mailboxState + 1 := first] && Recorded(middle, second, now)
    requires id in first.updated && id !in first.added && id !in first.removed
    ensures Overlaps(st, now, id) <==> id in second.added && id !in second.removed
  {
    hide Fold;
    FoldTwo(st.mailboxChanges, st.mailboxState, first, second, id);
  }

  /** From a new store: create, update, create again. */
  lemma CreatedTwiceOverlaps(mb: Mailbox, hook: Hook)
    requires mb.id != "" && hook(Create, mb.id)
    ensures var create := MailboxSet(SetRequest([("k", mb)], [], []), hook);
            var ops := [create, Touch(mb.id, hook), create];
            Overlaps(Run(BLANK, ops[..1]), Run(BLANK, ops), mb.id)
  {
    hide *;
    var create := MailboxSet(SetRequest([("k", mb)], [], []), hook);
    var st := Apply(BLANK, create);
    CreateAccepted(mb, hook);
    BlankFits();
    MailboxStepFits(BLANK, create);
    CreatedAgainOverlaps(st, mb.id, hook, create);
    ThreeSteps(BLANK, create, Touch(mb.id, hook), create);
  }

  lemma CreateAccepted(mb: Mailbox, hook: Hook)
    requires mb.id != "" && hook(Create, mb.id)
    ensures var req := SetRequest([("k", mb)], [], []);
            && Creates(req, hook, mb.id) && !Destroys(req, hook, mb.id)
            && mb.id in IdsOf(MailboxesOf(Apply(BLANK, MailboxSet(req, hook)).disk))
  {
    var req := SetRequest([("k", mb)], [], []);
    assert WithId(req.create[0].0, req.create[0].1).id == mb.id;
    RecordsExactly([], req, hook, mb.id);
    SetKeepsIds([], req, hook);
    hide Drafted, Retain, IdsOf;
    assert SetResult([], req, hook).Some?;
  }

  lemma ThreeSteps(st: State, x: Op, y: Op, z: Op)
    ensures Run(st, [x, y, z][..1]) == Apply(st, x)
    ensures Run(st, [x, y, z]) == Apply(Apply(Apply(st, x), y), z)
  {
    hide Apply;
    assert [x, y, z][..1] == [x] && [x][..0] == [];
    assert [x, y, z][..2] == [x, y] && [x, y][..1] == [x];
    assert Run(st, [x, y]) == Apply(Run(st, [x]), y);
  }
}
