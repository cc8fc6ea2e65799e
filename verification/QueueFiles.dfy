/**
 The retry queue on disk, one file operation at a time: what a crash between any two of
 them leaves behind for the next process to read.
 */
module QueueFiles {
  import opened Wrappers

  datatype Entry = Entry(
    id: string, from: string, to: seq<string>, attempts: nat, nextAttempt: int, firstQueued: int, lastError: string)

  /** How an entry is written to meta.json and read back. */
  datatype Codec = Codec(encode: Entry -> string, decode: string -> Option<Entry>)

  ghost predicate Faithful(codec: Codec) {
    forall e :: codec.decode(codec.encode(e)) == Some(e)
  }

  // ---- one directory ---------------------------------------------------------------------------

  datatype Name = Eml | Meta | Tmp

  /** The directory of one queued message: message.eml, meta.json and meta.json.tmp. */
  datatype Dir = Dir(eml: Option<string>, meta: Option<string>, tmp: Option<string>)

  datatype FileOp =
    | MakeDir
    | Truncate(name: Name)
    | Append(name: Name, chunk: string)
    | Rename
    | Unlink(name: Name)
    | RemoveDir

  function File(d: Dir, name: Name): Option<string> {
    match name case Eml => d.eml case Meta => d.meta case Tmp => d.tmp
  }

  function SetFile(d: Dir, name: Name, content: Option<string>): Dir {
    match name
    case Eml => d.(eml := content)
    case Meta => d.(meta := content)
    case Tmp => d.(tmp := content)
  }

  /** A missing directory stays missing, bar MakeDir; the rename replaces its target. */
  function Exec(d: Option<Dir>, op: FileOp): Option<Dir> {
    match op
    case MakeDir => if d.None? then Some(Dir(None, None, None)) else d
    case RemoveDir => None
    case Truncate(name) => if d.None? then None else Some(SetFile(d.value, name, Some("")))
    case Append(name, chunk) =>
      if d.None? || File(d.value, name).None? then d
      else Some(SetFile(d.value, name, Some(File(d.value, name).value + chunk)))
    case Rename =>
      if d.None? || d.value.tmp.None? then d else Some(Dir(d.value.eml, d.value.tmp, None))
    case Unlink(name) => if d.None? then None else Some(SetFile(d.value, name, None))
  }

  function ExecAll(d: Option<Dir>, ops: seq<FileOp>): Option<Dir> {
    if ops == [] then d else Exec(ExecAll(d, ops[..|ops| - 1]), ops[|ops| - 1])
  }

  // ---- the programs ------------------------------------------------------------------------------

  function Chunks(name: Name, chunks: seq<string>): seq<FileOp> {
    seq(|chunks|, i requires 0 <= i < |chunks| => Append(name, chunks[i]))
  }

  function Concat(chunks: seq<string>): string {
    if chunks == [] then "" else Concat(chunks[..|chunks| - 1]) + chunks[|chunks| - 1]
  }

  /** `write_private`: open, truncate, and write in however many pieces. */
  function Write(name: Name, chunks: seq<string>): seq<FileOp> {
    [Truncate(name)] + Chunks(name, chunks)
  }

  /** `write_meta`: written whole beside the old version, then renamed over it. */
  function WriteMeta(chunks: seq<string>): seq<FileOp> {
    Write(Tmp, chunks) + [Rename]
  }

  /** `enqueue`: the bytes before the metadata. */
  function Enqueue(raw: seq<string>, meta: seq<string>): seq<FileOp> {
    [MakeDir] + Write(Eml, raw) + WriteMeta(meta)
  }

  // ---- a slot of the queue through its life ----------------------------------------------------------

  /** What a process is in the middle of. */
  datatype Task =
    | Idle
    | Enqueuing(raw: seq<string>, meta: seq<string>, done: nat)
    | Rewriting(meta: seq<string>, done: nat)
    | Removing

  /** One id: its directory, the task on it, and what it has been given to keep. */
  datatype Slot = Slot(dir: Option<Dir>, task: Task, original: Option<string>, versions: set<Entry>, removed: bool)

  const UNUSED := Slot(None, Idle, None, {}, false)

  datatype Event =
    | BeginEnqueue(entry: Entry, raw: seq<string>, meta: seq<string>)
    | BeginRewrite(entry: Entry, meta: seq<string>)
    | BeginRemove
    | NextOp
    | RemoveSome(op: FileOp)
    | Crash

  /** The metadata that `load_all` would read in a directory. */
  function Shown(codec: Codec, d: Option<Dir>): Option<Entry> {
    if d.None? || d.value.meta.None? then None else codec.decode(d.value.meta.value)
  }

  /** What may happen to a slot: ids are never reused, and one task runs at a time. */
  predicate Allowed(codec: Codec, s: Slot, e: Event) {
    match e
    case BeginEnqueue(entry, raw, meta) => s == UNUSED && Concat(meta) == codec.encode(entry)
    case BeginRewrite(entry, meta) =>
      s.task == Idle && Shown(codec, s.dir).Some? && Concat(meta) == codec.encode(entry)
    case BeginRemove => s.task == Idle && s.dir.Some?
    case NextOp =>
      || (s.task.Enqueuing? && s.task.done < |Enqueue(s.task.raw, s.task.meta)|)
      || (s.task.Rewriting? && s.task.done < |WriteMeta(s.task.meta)|)
    case RemoveSome(op) => s.task == Removing && (op.Unlink? || op.RemoveDir?)
    case Crash => true
  }

  function Happens(codec: Codec, s: Slot, e: Event): Slot
    requires Allowed(codec, s, e)
  {
    match e
    case BeginEnqueue(entry, raw, meta) =>
      s.(task := Enqueuing(raw, meta, 0), original := Some(Concat(raw)), versions := {entry})
    case BeginRewrite(entry, meta) => s.(task := Rewriting(meta, 0), versions := s.versions + {entry})
    case BeginRemove => s.(task := Removing, removed := true)
    case NextOp =>
      (match s.task
       case Enqueuing(raw, meta, done) =>
         var ops := Enqueue(raw, meta);
         s.(dir := Exec(s.dir, ops[done]),
            task := if done + 1 == |ops| then Idle else Enqueuing(raw, meta, done + 1))
       case Rewriting(meta, done) =>
         var ops := WriteMeta(meta);
         s.(dir := Exec(s.dir, ops[done]),
            task := if done + 1 == |ops| then Idle else Rewriting(meta, done + 1)))
    case RemoveSome(op) => s.(dir := Exec(s.dir, op))
    case Crash => s.(task := Idle)
  }

  ghost predicate PossibleRun(codec: Codec, events: seq<Event>)
    decreases |events|, 0
  {
    events == [] || (PossibleRun(codec, events[..|events| - 1])
                     && Allowed(codec, RunSlot(codec, events[..|events| - 1]), events[|events| - 1]))
  }

  ghost function RunSlot(codec: Codec, events: seq<Event>): Slot
    requires PossibleRun(codec, events)
    decreases |events|, 1
  {
    if events == [] then UNUSED
    else Happens(codec, RunSlot(codec, events[..|events| - 1]), events[|events| - 1])
  }

  // ---- what the programs do to a directory --------------------------------------------------------------

  lemma ExecAllSnoc(d: Option<Dir>, ops: seq<FileOp>, k: nat)
    requires k < |ops|
    ensures ExecAll(d, ops[..k + 1]) == Exec(ExecAll(d, ops[..k]), ops[k])
  {
    assert ops[..k + 1][..k] == ops[..k];
  }

  lemma {:induction false} ExecAllAppend(d: Option<Dir>, a: seq<FileOp>, b: seq<FileOp>)
    ensures ExecAll(d, a + b) == ExecAll(ExecAll(d, a), b)
    decreases |b|
  {
    if b == [] {
      assert a + b == a;
    } else {
      assert (a + b)[..|a + b| - 1] == a + b[..|b| - 1];
      ExecAllAppend(d, a, b[..|b| - 1]);
    }
  }

  lemma {:induction false} AppendsAll(d: Dir, name: Name, before: string, chunks: seq<string>)
    requires File(d, name) == Some(before)
    ensures ExecAll(Some(d), Chunks(name, chunks)) == Some(SetFile(d, name, Some(before + Concat(chunks))))
  {
    if chunks == [] {
      assert before + "" == before;
    } else {
      var init := chunks[..|chunks| - 1];
      AppendsAll(d, name, before, init);
      assert Chunks(name, chunks)[..|chunks| - 1] == Chunks(name, init);
      assert before + Concat(init) + chunks[|chunks| - 1] == before + Concat(chunks);
    }
  }

  lemma WritesAll(d: Dir, name: Name, chunks: seq<string>)
    ensures ExecAll(Some(d), Write(name, chunks)) == Some(SetFile(d, name, Some(Concat(chunks))))
  {
    ExecAllAppend(Some(d), [Truncate(name)], Chunks(name, chunks));
    assert [Truncate(name)][..0] == [];
    AppendsAll(SetFile(d, name, Some("")), name, "", chunks);
    assert "" + Concat(chunks) == Concat(chunks);
  }

  lemma WritesMeta(d: Dir, chunks: seq<string>)
    ensures ExecAll(Some(d), WriteMeta(chunks)) == Some(Dir(d.eml, Some(Concat(chunks)), None))
  {
    WritesAll(d, Tmp, chunks);
    assert WriteMeta(chunks)[..|WriteMeta(chunks)| - 1] == Write(Tmp, chunks);
  }

  lemma Enqueues(raw: seq<string>, meta: seq<string>)
    ensures ExecAll(None, Enqueue(raw, meta)) == Some(Dir(Some(Concat(raw)), Some(Concat(meta)), None))
  {
    var empty := Dir(None, None, None);
    assert [MakeDir][..0] == [];
    assert ExecAll(None, [MakeDir]) == Some(empty);
    ExecAllAppend(None, [MakeDir], Write(Eml, raw));
    WritesAll(empty, Eml, raw);
    ExecAllAppend(None, [MakeDir] + Write(Eml, raw), WriteMeta(meta));
    WritesMeta(Dir(Some(Concat(raw)), None, None), meta);
  }

  /** An operation that leaves message.eml and meta.json alone. */
  predicate Sideways(op: FileOp) {
    match op
    case Truncate(name) => name == Tmp
    case Append(name, _) => name == Tmp
    case _ => false
  }

  predicate NoMeta(op: FileOp) {
    match op
    case MakeDir => true
    case Truncate(name) => name != Meta
    case Append(name, _) => name != Meta
    case _ => false
  }

  lemma {:induction false} SidewaysKeeps(d: Dir, ops: seq<FileOp>)
    requires forall i :: 0 <= i < |ops| ==> Sideways(ops[i])
    ensures ExecAll(Some(d), ops).Some?
    ensures ExecAll(Some(d), ops).value.eml == d.eml && ExecAll(Some(d), ops).value.meta == d.meta
  {
    if ops != [] {
      SidewaysKeeps(d, ops[..|ops| - 1]);
      assert Sideways(ops[|ops| - 1]);
    }
  }

  lemma {:induction false} NoMetaYet(ops: seq<FileOp>)
    requires forall i :: 0 <= i < |ops| ==> NoMeta(ops[i])
    ensures ExecAll(None, ops).None? || ExecAll(None, ops).value.meta == None
  {
    if ops != [] {
      NoMetaYet(ops[..|ops| - 1]);
      assert NoMeta(ops[|ops| - 1]);
    }
  }

  /** Until the rename, the new metadata is out of sight. */
  lemma PartialWriteMeta(d: Dir, chunks: seq<string>, k: nat)
    requires k < |WriteMeta(chunks)|
    ensures ExecAll(Some(d), WriteMeta(chunks)[..k]).Some?
    ensures var d' := ExecAll(Some(d), WriteMeta(chunks)[..k]).value; d'.eml == d.eml && d'.meta == d.meta
  {
    forall i | 0 <= i < k ensures Sideways(WriteMeta(chunks)[..k][i]) {
    }
    SidewaysKeeps(d, WriteMeta(chunks)[..k]);
  }

  lemma PartialEnqueue(raw: seq<string>, meta: seq<string>, k: nat)
    requires k < |Enqueue(raw, meta)|
    ensures var d := ExecAll(None, Enqueue(raw, meta)[..k]); d.None? || d.value.meta == None
  {
    forall i | 0 <= i < k ensures NoMeta(Enqueue(raw, meta)[..k][i]) {
    }
    NoMetaYet(Enqueue(raw, meta)[..k]);
  }

  // ---- crash consistency -----------------------------------------------------------------------------------

  /** Whatever metadata can be read is whole, and the message is there with all its bytes. */
  ghost predicate Readable(codec: Codec, s: Slot) {
    s.dir.Some? && s.dir.value.meta.Some? ==>
      && (exists v :: v in s.versions && s.dir.value.meta == Some(codec.encode(v)))
      && s.original.Some? && s.dir.value.eml == s.original
  }

  /** The state of a slot whose removal has not begun. */
  ghost predicate Consistent(codec: Codec, s: Slot) {
    !s.removed ==>
      && Readable(codec, s)
      && match s.task
         case Idle => true
         case Removing => false
         case Enqueuing(raw, meta, done) =>
           && done < |Enqueue(raw, meta)| && s.original == Some(Concat(raw))
           && s.dir == ExecAll(None, Enqueue(raw, meta)[..done])
           && exists v :: v in s.versions && Concat(meta) == codec.encode(v)
         case Rewriting(meta, done) =>
           && done < |WriteMeta(meta)|
           && (exists d: Dir :: d.meta.Some? && d.eml == s.original && s.dir == ExecAll(Some(d), WriteMeta(meta)[..done]))
           && exists v :: v in s.versions && Concat(meta) == codec.encode(v)
  }

  lemma EnqueueStep(codec: Codec, s: Slot)
    requires Consistent(codec, s) && !s.removed && s.task.Enqueuing? && Allowed(codec, s, NextOp)
    ensures Consistent(codec, Happens(codec, s, NextOp))
  {
    var Enqueuing(raw, meta, done) := s.task;
    var ops := Enqueue(raw, meta);
    ExecAllSnoc(None, ops, done);
    Enqueues(raw, meta);
    assert ops[..|ops|] == ops;
    hide ExecAll, Enqueue, Exec, Concat;
    if done + 1 < |ops| {
      PartialEnqueue(raw, meta, done + 1);
    }
  }

  lemma RewriteStep(codec: Codec, s: Slot)
    requires Consistent(codec, s) && !s.removed && s.task.Rewriting? && Allowed(codec, s, NextOp)
    ensures Consistent(codec, Happens(codec, s, NextOp))
  {
    var Rewriting(meta, done) := s.task;
    var ops := WriteMeta(meta);
    var d: Dir :| d.meta.Some? && d.eml == s.original && s.dir == ExecAll(Some(d), ops[..done]);
    ExecAllSnoc(Some(d), ops, done);
    WritesMeta(d, meta);
    PartialWriteMeta(d, meta, done);
    assert ops[..|ops|] == ops;
    hide ExecAll, WriteMeta, Exec, Concat;
    if done + 1 < |ops| {
      PartialWriteMeta(d, meta, done + 1);
    }
  }

  lemma StepIsConsistent(codec: Codec, s: Slot, e: Event)
    requires Faithful(codec) && Consistent(codec, s) && Allowed(codec, s, e)
    ensures Consistent(codec, Happens(codec, s, e))
  {
    if !Happens(codec, s, e).removed {
      match e
      case NextOp =>
        if s.task.Enqueuing? {
          EnqueueStep(codec, s);
        } else {
          RewriteStep(codec, s);
        }
      case BeginEnqueue(entry, raw, meta) =>
        assert Enqueue(raw, meta)[..0] == [];
        assert entry in Happens(codec, s, e).versions;
      case BeginRewrite(entry, meta) =>
        assert WriteMeta(meta)[..0] == [];
        var s' := Happens(codec, s, e);
        assert entry in s'.versions;
        assert s.dir == ExecAll(Some(s.dir.value), []);
      case _ =>
        hide Enqueue, WriteMeta, Concat, ExecAll, Exec;
    }
  }

  lemma {:induction false} RunIsConsistent(codec: Codec, events: seq<Event>)
    requires Faithful(codec) && PossibleRun(codec, events)
    ensures Consistent(codec, RunSlot(codec, events))
    decreases |events|
  {
    if events != [] {
      RunIsConsistent(codec, events[..|events| - 1]);
      hide Consistent, Allowed, Happens;
      StepIsConsistent(codec, RunSlot(codec, events[..|events| - 1]), events[|events| - 1]);
    }
  }

  /**
   Crash consistency.  Stop anywhere, between any two file operations and as often as
   you like: an entry that can be loaded, and whose removal has not begun, is one of
   the versions it was given, with the message as it was handed over.
   */
  lemma CrashConsistency(codec: Codec, events: seq<Event>)
    requires Faithful(codec) && PossibleRun(codec, events)
    ensures var s := RunSlot(codec, events);
            Shown(codec, s.dir).Some? && !s.removed ==>
              && Shown(codec, s.dir).value in s.versions
              && s.original.Some? && s.dir.value.eml == s.original
  {
    RunIsConsistent(codec, events);
    hide RunSlot, PossibleRun, Enqueue, WriteMeta, Concat, ExecAll;
  }
}
