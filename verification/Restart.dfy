/**
 Opening the directory again after any run gives the store back, less what lives in
 memory only: as long as no two ids share a file name and no id is empty.
 */
module Restart {
  import opened Wrappers
  import opened ChangeLog
  import opened Ordering
  import opened Emails
  import opened Mailboxes
  import opened Store
  import Sync

  /** Each id has a file of its own that opening will look at. */
  ghost predicate Safe(used: set<Id>) {
    "" !in used && forall a, b :: a in used && b in used && FileName(a) == FileName(b) ==> a == b
  }

  /** The ids an operation writes or removes a file for. */
  function IdsUsed(op: Op): set<Id> {
    match op
    case Put(msg) => {msg.id}
    case Delete(id) => {id}
    case _ => {}
  }

  ghost predicate Over(ops: seq<Op>, used: set<Id>) {
    forall i :: 0 <= i < |ops| ==> IdsUsed(ops[i]) <= used
  }

  // ---- memory and disk agree ------------------------------------------------------------------

  ghost predicate FilesAgree(msgs: Messages, files: map<string, Option<Email>>, used: set<Id>) {
    && msgs.Keys <= used && Keyed(msgs)
    && (forall id :: id in msgs ==> FileName(id) in files && files[FileName(id)] == Some(msgs[id]))
    && (forall f :: f in files ==> exists id :: id in msgs && FileName(id) == f)
  }

  function PersistedOn(d: Disk): Persisted {
    match d.delta case None => NO_STATE case Some(ps) => ps
  }

  function IdentitiesOn(d: Disk): seq<Object> {
    match d.identities case None => [] case Some(ids) => ids
  }

  ghost predicate Agrees(st: State, used: set<Id>) {
    && FilesAgree(st.msgs, st.disk.messages, used)
    && PersistedOn(st.disk) == ToPersist(st) && IdentitiesOn(st.disk) == st.identities
  }

  lemma WriteAgrees(msgs: Messages, files: map<string, Option<Email>>, used: set<Id>, m: Email)
    requires Safe(used) && FilesAgree(msgs, files, used) && m.id in used
    ensures FilesAgree(msgs[m.id := m], files[FileName(m.id) := Some(m)], used)
  {
    hide FileName;
    var msgs', files' := msgs[m.id := m], files[FileName(m.id) := Some(m)];
    forall f | f in files' ensures exists id :: id in msgs' && FileName(id) == f {
      if f == FileName(m.id) {
        assert m.id in msgs';
      } else {
        var id :| id in msgs && FileName(id) == f;
        assert id in msgs';
      }
    }
  }

  lemma RemoveAgrees(msgs: Messages, files: map<string, Option<Email>>, used: set<Id>, gone: Id)
    requires Safe(used) && FilesAgree(msgs, files, used) && gone in used
    ensures FilesAgree(msgs - {gone}, files - {FileName(gone)}, used)
  {
    hide FileName;
    forall f | f in files - {FileName(gone)} ensures exists id :: id in msgs - {gone} && FileName(id) == f {
      var id :| id in msgs && FileName(id) == f;
      assert id in msgs - {gone};
    }
  }

  lemma PurgeAgrees(msgs: Messages, files: map<string, Option<Email>>, used: set<Id>)
    requires Safe(used) && FilesAgree(msgs, files, used)
    ensures FilesAgree(map[], WithoutJson(files), used)
  {
    forall f | f in files ensures HasJsonExtension(f) {
      var id :| id in msgs && FileName(id) == f;
      FileNameExtension(id);
    }
  }

  lemma PutAgrees(st: State, msg: Email, used: set<Id>)
    requires Safe(used) && Agrees(st, used) && msg.id in used
    ensures Agrees(PutState(st, msg), used)
  {
    hide Safe, FilesAgree, Threads.Resolved, FileName;
    WriteAgrees(st.msgs, st.disk.messages, used, Threaded(st.msgs, msg));
  }

  lemma DeleteAgrees(st: State, id: Id, used: set<Id>)
    requires Safe(used) && Agrees(st, used) && id in used
    ensures Agrees(DeleteState(st, id), used)
  {
    hide Safe, FilesAgree, FileName;
    RemoveAgrees(st.msgs, st.disk.messages, used, id);
    assert id !in st.msgs ==> st.msgs - {id} == st.msgs;
  }

  lemma PurgedAgrees(st: State, used: set<Id>)
    requires Safe(used) && Agrees(st, used)
    ensures Agrees(PurgeState(st), used)
  {
    hide Safe, FilesAgree, WithoutJson, Sorted;
    PurgeAgrees(st.msgs, st.disk.messages, used);
  }

  lemma IdsAreUsed(st: State, used: set<Id>)
    requires Agrees(st, used)
    ensures st.msgs.Keys <= used
  {
  }

  lemma PatchAgrees(st: State, id: Id, patch: Patch, both: bool, used: set<Id>)
    requires Safe(used) && Agrees(st, used)
    ensures Agrees(PatchState(st, id, patch, both), used)
  {
    if id in st.msgs {
      var m := PatchAll(st.msgs[id], patch, both);
      assert m.id == id;
      IdsAreUsed(st, used);
      hide Safe, FilesAgree, PatchAll, FileName;
      WriteAgrees(st.msgs, st.disk.messages, used, m);
    }
  }

  lemma StepAgrees(st: State, op: Op, used: set<Id>)
    requires Safe(used) && Agrees(st, used) && IdsUsed(op) <= used
    ensures Agrees(Apply(st, op), used)
  {
    hide Safe, FilesAgree, PutState, DeleteState, PurgeState, PatchState, SyncRecord, SetResult;
    match op
    case Put(msg) => PutAgrees(st, msg, used);
    case Delete(id) => DeleteAgrees(st, id, used);
    case Purge => PurgedAgrees(st, used);
    case PatchMessage(id, patch, both) => PatchAgrees(st, id, patch, both, used);
    case _ =>
  }

  lemma {:induction false} RunAgrees(ops: seq<Op>, used: set<Id>)
    requires Safe(used) && Over(ops, used)
    ensures Agrees(Run(BLANK, ops), used)
    decreases |ops|
  {
    if ops != [] {
      RunAgrees(ops[..|ops| - 1], used);
      hide Agrees, Apply;
      StepAgrees(Run(BLANK, ops[..|ops| - 1]), ops[|ops| - 1], used);
    }
  }

  // ---- reading the directory ---------------------------------------------------------------------

  ghost predicate Loaded(msgs: Messages, files: map<string, Option<Email>>, entries: seq<string>, r: Messages) {
    && (forall id :: id in r ==> id in msgs && r[id] == msgs[id])
    && (forall id :: id in msgs && FileName(id) in entries ==> id in r)
  }

  /** Whatever order the directory is listed in. */
  lemma {:induction false} LoadsBack(msgs: Messages, files: map<string, Option<Email>>, used: set<Id>, entries: seq<string>)
    requires Safe(used) && FilesAgree(msgs, files, used)
    ensures Loaded(msgs, files, entries, LoadAll(files, entries))
    decreases |entries|
  {
    if entries != [] {
      var init, name := entries[..|entries| - 1], entries[|entries| - 1];
      LoadsBack(msgs, files, used, init);
      LoadStep(msgs, files, used, init, name, LoadAll(files, init));
      assert entries == init + [name];
    }
  }

  /** Reading one of the store's own files. */
  lemma LoadsOne(msgs: Messages, files: map<string, Option<Email>>, used: set<Id>, name: string, r: Messages) returns (id: Id)
    requires Safe(used) && FilesAgree(msgs, files, used) && name in files
    ensures id in msgs && FileName(id) == name && LoadOne(r, files, name) == r[id := msgs[id]]
    ensures forall other :: other in msgs && FileName(other) == name ==> other == id
  {
    id :| id in msgs && FileName(id) == name;
    FileNameExtension(id);
    hide FileName, HasJsonExtension;
  }

  lemma LoadStep(msgs: Messages, files: map<string, Option<Email>>, used: set<Id>, init: seq<string>, name: string, r: Messages)
    requires Safe(used) && FilesAgree(msgs, files, used) && Loaded(msgs, files, init, r)
    ensures Loaded(msgs, files, init + [name], LoadOne(r, files, name))
  {
    if name in files {
      hide Safe, FileName, LoadOne, FilesAgree;
      var id := LoadsOne(msgs, files, used, name, r);
    } else {
      hide Safe, FileName;
      assert LoadOne(r, files, name) == r;
      OnlyOwnFiles(msgs, files, used, name);
    }
  }

  lemma OnlyOwnFiles(msgs: Messages, files: map<string, Option<Email>>, used: set<Id>, name: string)
    requires FilesAgree(msgs, files, used) && name !in files
    ensures forall id :: id in msgs ==> FileName(id) != name
  {
    hide FileName;
  }

  /** What a restart loses. */
  function Forgets(st: State): State {
    st.(pending := map[], blobs := map[], vacation := None, identityState := 0)
  }

  /**
   After any run over ids with file names of their own, opening the directory gives
   the same messages, counters, logs, submissions, identities and mailboxes.
   */
  lemma RestartIsProjection(ops: seq<Op>, used: set<Id>, entries: seq<string>)
    requires Safe(used) && Over(ops, used)
    requires forall f :: f in Run(BLANK, ops).disk.messages ==> f in entries
    ensures Opened(Run(BLANK, ops).disk, entries) == Forgets(Run(BLANK, ops))
  {
    RunAgrees(ops, used);
    var st := Run(BLANK, ops);
    hide Run, Safe;
    LoadsBack(st.msgs, st.disk.messages, used, entries);
    hide FileName;
    var loaded := LoadAll(st.disk.messages, entries);
    assert loaded == st.msgs;
    hide LoadAll;
  }

  /** A client is told the truth across a restart as well. */
  lemma SoundAcrossRestart(ops: seq<Op>, used: set<Id>, entries: seq<string>, later: seq<Op>)
    requires Safe(used) && Over(ops, used)
    requires forall f :: f in Run(BLANK, ops).disk.messages ==> f in entries
    ensures Sync.SoundAnswer(Run(BLANK, ops), Run(Opened(Run(BLANK, ops).disk, entries), later))
  {
    hide *;
    var before, reopened := Run(BLANK, ops), Opened(Run(BLANK, ops).disk, entries);
    RestartIsProjection(ops, used, entries);
    Sync.BlankFits();
    Sync.RunFits(BLANK, ops);
    KeepsLog(before);
    Sync.ChangesAreSound(reopened, later, 0);
    assert later[..0] == [];
    RunNothing(reopened);
    SameAnswer(before, reopened, Run(reopened, later));
  }

  lemma KeepsLog(st: State)
    requires Sync.LogFits(st)
    ensures Sync.LogFits(Forgets(st))
    ensures Forgets(st).msgs == st.msgs && Forgets(st).state == st.state
  {
  }

  lemma RunNothing(st: State)
    ensures Run(st, []) == st
  {
  }

  lemma SameAnswer(before: State, reopened: State, now: State)
    requires Sync.SoundAnswer(reopened, now) && reopened.msgs == before.msgs && reopened.state == before.state
    ensures Sync.SoundAnswer(before, now)
  {
    hide UpdatedIn, Answer;
  }

  // ---- and not otherwise --------------------------------------------------------------------------

  lemma RunTwo(a: Op, b: Op)
    ensures Run(BLANK, [a]) == Apply(BLANK, a) && Run(BLANK, [a, b]) == Apply(Apply(BLANK, a), b)
  {
    hide Apply;
    assert [a, b][..1] == [a] && [a][..0] == [];
  }

  /** A loaded message comes from a file that holds it. */
  lemma {:induction false} LoadedFrom(files: map<string, Option<Email>>, entries: seq<string>, id: Id) returns (f: string)
    requires id in LoadAll(files, entries)
    ensures f in files && HasJsonExtension(f) && files[f].Some? && files[f].value.id == id != ""
    decreases |entries|
  {
    hide HasJsonExtension;
    var init, name := entries[..|entries| - 1], entries[|entries| - 1];
    if id in LoadAll(files, init) {
      f := LoadedFrom(files, init, id);
    } else {
      f := name;
    }
  }

  /** Two ids with one file name: the first message is gone after a restart. */
  lemma CollidingIdsForget(a: Email, b: Email, entries: seq<string>)
    requires a.id != b.id && FileName(a.id) == FileName(b.id)
    ensures var st := Run(BLANK, [Put(a), Put(b)]);
            a.id in st.msgs && a.id !in Opened(st.disk, entries).msgs
  {
    hide *;
    RunTwo(Put(a), Put(b));
    var st := Run(BLANK, [Put(a), Put(b)]);
    TwoPuts(a, b);
    OpenedMessages(st.disk, entries);
    if a.id in LoadAll(st.disk.messages, entries) {
      var f := LoadedFrom(st.disk.messages, entries, a.id);
    }
  }

  lemma OpenedMessages(d: Disk, entries: seq<string>)
    ensures Opened(d, entries).msgs == LoadAll(d.messages, entries)
  {
    hide LoadAll;
  }

  lemma TwoPuts(a: Email, b: Email)
    requires a.id != b.id && FileName(a.id) == FileName(b.id)
    ensures var st := Apply(Apply(BLANK, Put(a)), Put(b));
            && a.id in st.msgs
            && forall f :: f in st.disk.messages ==> st.disk.messages[f].Some? && st.disk.messages[f].value.id == b.id
  {
    hide FileName, Threads.Resolved;
    var one := PutState(BLANK, a);
    assert one.disk.messages.Keys == {FileName(a.id)} && one.msgs.Keys == {a.id};
  }

  /** An empty id is never read back. */
  lemma EmptyIdForgets(a: Email, entries: seq<string>)
    requires a.id == ""
    ensures var st := Run(BLANK, [Put(a)]);
            a.id in st.msgs && a.id !in Opened(st.disk, entries).msgs
  {
    RunTwo(Put(a), Purge);
    hide FileName, Threads.Resolved;
    var st := Run(BLANK, [Put(a)]);
    if a.id in LoadAll(st.disk.messages, entries) {
      hide Run, Opened, PutState;
      var f := LoadedFrom(st.disk.messages, entries, a.id);
    }
  }

  /** Distinct ids do collide: a colon and a slash are both a hyphen on disk. */
  lemma NamesCollide()
    ensures FileName("a:b") == FileName("a/b") && !Safe({"a:b", "a/b"})
  {
    assert SafeFilename("a:b") == "a-b" && SafeFilename("a/b") == "a-b";
  }

  lemma OverTwo(a: Op, b: Op, used: set<Id>)
    requires IdsUsed(a) <= used && IdsUsed(b) <= used
    ensures Over([a, b], used) && Over([a], used)
  {
  }

  /** The condition is exact: over any other set of ids, some run loses a message. */
  lemma UnsafeForgets(used: set<Id>, m: Email, entries: seq<string>) returns (ops: seq<Op>, lost: Id)
    requires !Safe(used)
    ensures Over(ops, used)
    ensures lost in Run(BLANK, ops).msgs && lost !in Opened(Run(BLANK, ops).disk, entries).msgs
  {
    if "" in used {
      var a := m.(id := "");
      OverTwo(Put(a), Put(a), used);
      EmptyIdForgets(a, entries);
      ops, lost := [Put(a)], "";
    } else {
      var x, y :| x in used && y in used && FileName(x) == FileName(y) && x != y;
      var a, b := m.(id := x), m.(id := y);
      OverTwo(Put(a), Put(b), used);
      hide FileName, Run, Opened, Over;
      CollidingIdsForget(a, b, entries);
      ops, lost := [Put(a), Put(b)], x;
    }
  }
}
