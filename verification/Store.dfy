/**
 The mail store: messages and counters in memory, mirrored in a directory of files.

 `State` is everything a store holds, and the functions on it say what each operation
 does; the methods of `Store` carry them out on the fields, in the source's order.
 No write fails, and a file holds what was last written to it.
 */
module Store {
  import opened Wrappers
  import opened ChangeLog
  import opened Ordering
  import opened Emails
  import opened Mailboxes
  import Listing
  import Threads

  /** A JSON object nobody looks into. */
  type Object = string

  /** The contents of delta.json. */
  datatype Persisted = Persisted(
    state: int, changes: Log, mailboxState: int, mailboxChanges: Log, submissions: seq<Object>, submissionState: int)

  /** A message file that does not parse holds None. */
  datatype Disk = Disk(
    messages: map<string, Option<Email>>,
    mailboxes: Option<seq<Mailbox>>,
    identities: Option<seq<Object>>,
    delta: Option<Persisted>)

  datatype State = State(
    msgs: Messages,
    pending: Messages,
    state: int,
    changes: Log,
    identities: seq<Object>,
    identityState: int,
    mailboxState: int,
    mailboxChanges: Log,
    blobs: map<string, string>,
    submissions: seq<Object>,
    submissionState: int,
    vacation: Option<Object>,
    disk: Disk)

  // ---- file names ---------------------------------------------------------------------------

  function SafeChar(c: char): char {
    if c in "/\\:*?\"<>|" then '-' else c
  }

  const MAX_NAME: nat := 200

  /** Lossy: nine characters all become a hyphen, and the rest is cut off. */
  function SafeFilename(s: string): string {
    var out := seq(|s|, i requires 0 <= i < |s| => SafeChar(s[i]));
    if |out| > MAX_NAME then out[..MAX_NAME] else out
  }

  const JSON := ".json"

  function FileName(id: Id): string {
    SafeFilename(id) + JSON
  }

  /** `path.extension() == "json"`: a name that is nothing but the suffix has none. */
  predicate HasJsonExtension(name: string) {
    |name| > |JSON| && name[|name| - |JSON|..] == JSON
  }

  lemma FileNameExtension(id: Id)
    ensures HasJsonExtension(FileName(id)) <==> id != ""
  {
    var name := FileName(id);
    assert |JSON| == 5 && |SafeFilename(id)| <= |id|;
    assert name[|name| - 5..] == JSON;
    if id != "" {
      assert |SafeFilename(id)| > 0;
    }
  }

  // ---- one operation at a time -----------------------------------------------------------------

  function ToPersist(st: State): Persisted {
    Persisted(st.state, st.changes, st.mailboxState, st.mailboxChanges, st.submissions, st.submissionState)
  }

  /** `save_state_locked`. */
  function Saved(st: State): State {
    st.(disk := st.disk.(delta := Some(ToPersist(st))))
  }

  /** The next state, with its record, written out. */
  function Logged(st: State, rec: Record): State {
    Saved(st.(state := st.state + 1, changes := st.changes[st.state + 1 := rec]))
  }

  function WriteMessage(d: Disk, m: Email): Disk {
    d.(messages := d.messages[FileName(m.id) := Some(m)])
  }

  /** The message as it is stored: with a thread. */
  function Threaded(msgs: Messages, msg: Email): Email {
    if msg.threadId == "" then msg.(threadId := Threads.Resolved(msgs, msg)) else msg
  }

  /** Only a new message is logged; rewriting one is not. */
  function PutState(st: State, msg: Email): State {
    var m := Threaded(st.msgs, msg);
    var written := st.(disk := WriteMessage(st.disk, m), msgs := st.msgs[m.id := m]);
    if m.id in st.msgs then written else Logged(written, Record([m.id], [], []))
  }

  function RemoveFile(st: State, id: Id): State {
    st.(disk := st.disk.(messages := st.disk.messages - {FileName(id)}))
  }

  function DeleteState(st: State, id: Id): State {
    var gone := if id in st.msgs then Logged(st.(msgs := st.msgs - {id}), Record([], [], [id])) else st;
    RemoveFile(gone, id)
  }

  function PurgeState(st: State): State {
    var removed := Sorted(st.msgs.Keys);
    var cleared := st.(msgs := map[]);
    var logged := if removed == [] then cleared else Logged(cleared, Record([], [], removed));
    logged.(disk := logged.disk.(messages := WithoutJson(logged.disk.messages)))
  }

  function WithoutJson(files: map<string, Option<Email>>): map<string, Option<Email>> {
    map f | f in files && !HasJsonExtension(f) :: files[f]
  }

  datatype Json = Bool(b: bool) | Null | Other

  type Patch = seq<(string, Json)>

  function StripPrefix(s: string, p: string): Option<string> {
    if p <= s then Some(s[|p|..]) else None
  }

  /** One key of a patch; a null removes only where mailboxes may be patched too. */
  function PatchOne(m: Email, key: string, v: Json, mailboxesToo: bool): Email {
    match StripPrefix(key, "keywords/")
    case Some(kw) =>
      (match v
       case Bool(b) => m.(keywords := m.keywords[kw := b])
       case Null => if mailboxesToo then m.(keywords := m.keywords - {kw}) else m
       case Other => m)
    case None =>
      match StripPrefix(key, "mailboxIds/")
      case None => m
      case Some(mb) =>
        if !mailboxesToo then m
        else match v
          case Bool(b) => m.(mailboxIds := m.mailboxIds[mb := b])
          case Null => m.(mailboxIds := m.mailboxIds - {mb})
          case Other => m
  }

  function PatchAll(m: Email, patch: Patch, mailboxesToo: bool): (r: Email)
    ensures r.id == m.id && r.threadId == m.threadId
  {
    if patch == [] then m
    else
      var (key, v) := patch[|patch| - 1];
      PatchOne(PatchAll(m, patch[..|patch| - 1], mailboxesToo), key, v, mailboxesToo)
  }

  /** Every patch of a stored message is logged, whatever it holds. */
  function PatchState(st: State, id: Id, patch: Patch, mailboxesToo: bool): State {
    if id !in st.msgs then st
    else
      var m := PatchAll(st.msgs[id], patch, mailboxesToo);
      var logged := Logged(st.(msgs := st.msgs[id := m]), Record([], [id], []));
      logged.(disk := logged.disk.(messages := logged.disk.messages[FileName(id) := Some(m)]))
  }

  function MailboxesOf(d: Disk): seq<Mailbox> {
    match d.mailboxes case None => [] case Some(mbs) => mbs
  }

  function LogMailboxes(st: State, mbs: seq<Mailbox>, rec: Record): State {
    Saved(st.(disk := st.disk.(mailboxes := Some(mbs)),
              mailboxState := st.mailboxState + 1,
              mailboxChanges := st.mailboxChanges[st.mailboxState + 1 := rec]))
  }

  function SyncState(st: State, mbs: seq<Mailbox>): State {
    match SyncRecord(MailboxesOf(st.disk), mbs)
    case None => st
    case Some(rec) => LogMailboxes(st, mbs, rec)
  }

  function MailboxSetState(st: State, req: SetRequest, hook: Hook): State {
    match SetResult(MailboxesOf(st.disk), req, hook)
    case None => st
    case Some(d) => LogMailboxes(st, d.mbs, d.rec)
  }

  function IdentitiesState(st: State, ids: seq<Object>, bumps: int): State {
    st.(identities := ids, identityState := st.identityState + bumps,
        disk := st.disk.(identities := Some(ids)))
  }

  function SubmissionState(st: State, sub: Object): State {
    Saved(st.(submissions := st.submissions + [sub], submissionState := st.submissionState + 1))
  }

  // ---- opening -----------------------------------------------------------------------------------

  /** One directory entry: anything that is not a message with an id is skipped. */
  function LoadOne(msgs: Messages, files: map<string, Option<Email>>, name: string): Messages {
    if name in files && HasJsonExtension(name) && files[name].Some? && files[name].value.id != ""
    then msgs[files[name].value.id := files[name].value]
    else msgs
  }

  /** The directory is read in the order the system lists it. */
  function LoadAll(files: map<string, Option<Email>>, entries: seq<string>): Messages {
    if entries == [] then map[]
    else LoadOne(LoadAll(files, entries[..|entries| - 1]), files, entries[|entries| - 1])
  }

  const NO_STATE := Persisted(0, map[], 0, map[], [], 0)

  function Opened(d: Disk, entries: seq<string>): State {
    var ps := match d.delta case None => NO_STATE case Some(ps) => ps;
    State(LoadAll(d.messages, entries), map[], ps.state, ps.changes,
          match d.identities case None => [] case Some(ids) => ids, 0,
          ps.mailboxState, ps.mailboxChanges, map[], ps.submissions, ps.submissionState, None, d)
  }

  const EMPTY_DISK := Disk(map[], None, None, None)

  // ---- the store object -----------------------------------------------------------------------------

  class Store {
    var msgs: Messages
    var pending: Messages
    var state: int
    var changes: Log
    var identities: seq<Object>
    var identityState: int
    var mailboxState: int
    var mailboxChanges: Log
    var blobs: map<string, string>
    var submissions: seq<Object>
    var submissionState: int
    var vacation: Option<Object>
    var disk: Disk

    function Abs(): State
      reads this
    {
      State(msgs, pending, state, changes, identities, identityState, mailboxState, mailboxChanges, blobs,
            submissions, submissionState, vacation, disk)
    }

    /** `Store::open`. */
    constructor (d: Disk, entries: seq<string>)
      ensures Abs() == Opened(d, entries)
    {
      var inner: Messages := map[];
      for i := 0 to |entries|
        invariant inner == LoadAll(d.messages, entries[..i])
      {
        assert entries[..i + 1][..i] == entries[..i];
        var name := entries[i];
        if name in d.messages && HasJsonExtension(name) {
          var content := d.messages[name];
          if content.Some? && content.value.id != "" {
            inner := inner[content.value.id := content.value];
          }
        }
      }
      assert entries[..|entries|] == entries;
      msgs, pending, blobs, vacation, identityState, disk := inner, map[], map[], None, 0, d;
      var ps := match d.delta case None => NO_STATE case Some(ps) => ps;
      state, changes, mailboxState, mailboxChanges := ps.state, ps.changes, ps.mailboxState, ps.mailboxChanges;
      submissions, submissionState := ps.submissions, ps.submissionState;
      identities := match d.identities case None => [] case Some(ids) => ids;
    }

    method SaveState()
      modifies this`disk
      ensures Abs() == Saved(old(Abs()))
    {
      disk := disk.(delta := Some(Persisted(state, changes, mailboxState, mailboxChanges, submissions, submissionState)));
    }

    method Put(msg0: Email)
      modifies this
      ensures Abs() == PutState(old(Abs()), msg0)
    {
      var msg := msg0;
      if msg.threadId == "" {
        var tid := Threads.ResolveThreadId(msgs, msg);
        msg := msg.(threadId := tid);
      }
      hide FileName;
      disk := WriteMessage(disk, msg);
      var existed := msg.id in msgs;
      msgs := msgs[msg.id := msg];
      if !existed {
        state := state + 1;
        changes := changes[state := Record([msg.id], [], [])];
        SaveState();
      }
    }

    /** Persisted or pending. */
    function Get(id: Id): (r: Option<Email>)
      reads this
      ensures r.Some? <==> id in msgs || id in pending
    {
      if id in msgs then Some(msgs[id]) else if id in pending then Some(pending[id]) else None
    }

    /** Newest first, and just the listing filtered. */
    method MatchingIds(keep: Email -> bool) returns (ids: seq<Id>)
      ensures ids == Listing.Map(Listing.Filter(Listing.All(msgs), keep), Listing.EmailId)
    {
      hide *;
      Listing.MatchingIsFiltered(msgs, keep);
      ids := Listing.MatchingIds(msgs, keep);
    }

    method Delete(id: Id)
      modifies this
      ensures Abs() == DeleteState(old(Abs()), id)
    {
      hide FileName;
      if id in msgs {
        msgs := msgs - {id};
        state := state + 1;
        changes := changes[state := Record([], [], [id])];
        SaveState();
      }
      disk := disk.(messages := disk.messages - {FileName(id)});
    }

    method Purge() returns (count: nat)
      modifies this
      ensures Abs() == PurgeState(old(Abs())) && count == |Sorted(old(msgs).Keys)|
    {
      hide Sorted, WithoutJson;
      var removed := Sorted(msgs.Keys);
      msgs := map[];
      if removed != [] {
        state := state + 1;
        changes := changes[state := Record([], [], removed)];
        SaveState();
      }
      var files := SweepJson(disk.messages);
      disk := disk.(messages := files);
      return |removed|;
    }

    method PatchEmail(id: Id, patch: Patch, mailboxesToo: bool)
      modifies this
      ensures Abs() == PatchState(old(Abs()), id, patch, mailboxesToo)
    {
      if id !in msgs {
        return;
      }
      hide PatchOne, FileName;
      var cp := msgs[id];
      for i := 0 to |patch|
        invariant cp == PatchAll(msgs[id], patch[..i], mailboxesToo)
      {
        assert patch[..i + 1][..i] == patch[..i];
        cp := PatchOne(cp, patch[i].0, patch[i].1, mailboxesToo);
      }
      assert patch[..|patch|] == patch;
      msgs := msgs[id := cp];
      state := state + 1;
      changes := changes[state := Record([], [id], [])];
      SaveState();
      disk := disk.(messages := disk.messages[FileName(id) := Some(cp)]);
    }

    method PutPending(msg: Email)
      modifies this`pending
      ensures pending == old(pending)[msg.id := msg]
    {
      pending := pending[msg.id := msg];
    }

    method TakePending(id: Id) returns (r: Option<Email>)
      modifies this`pending
      ensures r == if id in old(pending) then Some(old(pending)[id]) else None
      ensures pending == old(pending) - {id}
    {
      r := if id in pending then Some(pending[id]) else None;
      pending := pending - {id};
    }

    method BumpMailboxState(rec: Record)
      modifies this
      ensures Abs() == Saved(old(Abs()).(mailboxState := old(mailboxState) + 1,
                                         mailboxChanges := old(mailboxChanges)[old(mailboxState) + 1 := rec]))
    {
      mailboxState := mailboxState + 1;
      mailboxChanges := mailboxChanges[mailboxState := rec];
      SaveState();
    }

    method SyncMailboxes(mbs: seq<Mailbox>)
      modifies this
      ensures Abs() == SyncState(old(Abs()), mbs)
    {
      hide IdsOf, Sorted;
      var existing := IdsOf(MailboxesOf(disk));
      var incoming := IdsOf(mbs);
      var created := Sorted(incoming - existing);
      var destroyed := Sorted(existing - incoming);
      if created == [] && destroyed == [] {
        return;
      }
      disk := disk.(mailboxes := Some(mbs));
      BumpMailboxState(Record(created, [], destroyed));
    }

    method MailboxSet(req: SetRequest, hook: Hook)
      modifies this
      ensures Abs() == MailboxSetState(old(Abs()), req, hook)
    {
      hide SetResult;
      var r := Set(MailboxesOf(disk), req, hook);
      if r.Some? {
        disk := disk.(mailboxes := Some(r.value.mbs));
        BumpMailboxState(r.value.rec);
      }
    }

    /** With no bumps this is `set_identities`. */
    method ReplaceIdentities(ids: seq<Object>, bumps: int)
      modifies this
      ensures Abs() == IdentitiesState(old(Abs()), ids, bumps)
    {
      identities := ids;
      identityState := identityState + bumps;
      disk := disk.(identities := Some(identities));
    }

    method AddSubmission(sub: Object)
      modifies this
      ensures Abs() == SubmissionState(old(Abs()), sub)
    {
      submissions := submissions + [sub];
      submissionState := submissionState + 1;
      SaveState();
    }
  }

  /** Remove every message file, one directory entry at a time. */
  method SweepJson(files: map<string, Option<Email>>) returns (r: map<string, Option<Email>>)
    ensures r == WithoutJson(files)
  {
    hide HasJsonExtension, Sorted, WithoutJson;
    var entries := Sorted(files.Keys);
    r := files;
    for i := 0 to |entries|
      invariant r == Without(files, entries[..i])
    {
      SweepStep(files, entries, i);
      if HasJsonExtension(entries[i]) {
        r := r - {entries[i]};
      }
    }
    assert entries[..|entries|] == entries;
    SweptAll(files);
  }

  function Without(files: map<string, Option<Email>>, swept: seq<string>): map<string, Option<Email>> {
    map f | f in files && !(f in swept && HasJsonExtension(f)) :: files[f]
  }

  lemma SweepStep(files: map<string, Option<Email>>, entries: seq<string>, i: nat)
    requires i < |entries|
    ensures Without(files, entries[..i + 1])
         == if HasJsonExtension(entries[i]) then Without(files, entries[..i]) - {entries[i]} else Without(files, entries[..i])
  {
    hide HasJsonExtension;
    assert entries[..i + 1] == entries[..i] + [entries[i]];
  }

  lemma SweptAll(files: map<string, Option<Email>>)
    ensures Without(files, Sorted(files.Keys)) == WithoutJson(files)
  {
    hide HasJsonExtension;
  }

  // ---- runs -----------------------------------------------------------------------------------------

  datatype Op =
    | Put(msg: Email)
    | Delete(id: Id)
    | Purge
    | PatchMessage(target: Id, patch: Patch, mailboxesToo: bool)
    | PutPending(draft: Email)
    | TakePending(taken: Id)
    | SyncMailboxes(mbs: seq<Mailbox>)
    | MailboxSet(req: SetRequest, hook: Hook)
    | Identities(ids: seq<Object>, bumps: int)
    | Vacation(v: Option<Object>)
    | PutBlob(blobId: string, data: string)
    | AddSubmission(sub: Object)

  function Apply(st: State, op: Op): State {
    match op
    case Put(msg) => PutState(st, msg)
    case Delete(id) => DeleteState(st, id)
    case Purge => PurgeState(st)
    case PatchMessage(id, patch, both) => PatchState(st, id, patch, both)
    case PutPending(draft) => st.(pending := st.pending[draft.id := draft])
    case TakePending(id) => st.(pending := st.pending - {id})
    case SyncMailboxes(mbs) => SyncState(st, mbs)
    case MailboxSet(req, hook) => MailboxSetState(st, req, hook)
    case Identities(ids, bumps) => IdentitiesState(st, ids, bumps)
    case Vacation(v) => st.(vacation := v)
    case PutBlob(blobId, data) => st.(blobs := st.blobs[blobId := data])
    case AddSubmission(sub) => SubmissionState(st, sub)
  }

  function Run(st: State, ops: seq<Op>): State {
    if ops == [] then st else Apply(Run(st, ops[..|ops| - 1]), ops[|ops| - 1])
  }

  /** A new store on an empty directory. */
  const BLANK := Opened(EMPTY_DISK, [])

  // ---- file names are safe ----------------------------------------------------------------------------

  predicate Forbidden(c: char) {
    c == '/' || c == '\\' || c == ':' || c == '*' || c == '?' || c == '"' || c == '<' || c == '>' || c == '|'
  }

  lemma SafeCharExactly(c: char)
    ensures SafeChar(c) == if Forbidden(c) then '-' else c
    ensures !Forbidden(SafeChar(c))
  {
    var s := "/\\:*?\"<>|";
    assert |s| == 9 && forall i :: 0 <= i < 9 ==> Forbidden(s[i]);
    assert s[0] == '/' && s[1] == '\\' && s[2] == ':' && s[3] == '*' && s[4] == '?' && s[5] == '"';
    assert s[6] == '<' && s[7] == '>' && s[8] == '|';
  }

  /**
   No separator or wildcard gets into a file name, nor more than 200 characters of an id;
   an id with none of them and no longer than that is its own name.
   */
  lemma SafeFilenameExactly(id: Id)
    ensures |SafeFilename(id)| == if |id| <= 200 then |id| else 200
    ensures forall i :: 0 <= i < |SafeFilename(id)| ==>
              && !Forbidden(SafeFilename(id)[i])
              && (Forbidden(id[i]) ==> SafeFilename(id)[i] == '-') && (!Forbidden(id[i]) ==> SafeFilename(id)[i] == id[i])
    ensures |id| <= 200 && (forall i :: 0 <= i < |id| ==> !Forbidden(id[i])) ==> FileName(id) == id + ".json"
  {
    var name := SafeFilename(id);
    forall i | 0 <= i < |name|
      ensures && !Forbidden(name[i]) && (Forbidden(id[i]) ==> name[i] == '-') && (!Forbidden(id[i]) ==> name[i] == id[i])
    {
      SafeCharExactly(id[i]);
    }
    if |id| <= 200 && forall i :: 0 <= i < |id| ==> !Forbidden(id[i]) {
      assert name == id;
    }
  }
}
