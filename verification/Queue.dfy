/**
 The retry queue and the relay's outbound counters: submissions that come to an end or
 are taken into the queue, and the passes that retry what is due.

 A send is an arbitrary outcome, and the schedule is whatever `Backoff` says.
 */
module Queue {
  import opened Wrappers
  import opened Ordering
  import opened QueueFiles
  import Listing

  type Backoff = nat -> Option<nat>

  datatype Attempt = Delivered | Permanent(error: string) | Temporary(error: string)

  datatype Relay = Relay(disk: map<string, Dir>, sent: nat, failed: nat, reported: seq<string>)

  // ---- what is queued ----------------------------------------------------------------------------

  function EntryOf(codec: Codec, disk: map<string, Dir>, id: string): Option<Entry> {
    if id in disk then Shown(codec, Some(disk[id])) else None
  }

  function Oldest(e: Entry): int {
    -e.firstQueued
  }

  function Entries(codec: Codec, disk: map<string, Dir>, ids: seq<string>): seq<Entry> {
    if ids == [] then []
    else
      var e := EntryOf(codec, disk, ids[|ids| - 1]);
      Entries(codec, disk, ids[..|ids| - 1]) + if e.Some? then [e.value] else []
  }

  /** `load_all`: every directory whose metadata parses, oldest first. */
  function LoadAll(codec: Codec, disk: map<string, Dir>): seq<Entry> {
    Listing.SortDescending(Entries(codec, disk, Sorted(disk.Keys)), Oldest)
  }

  function Due(codec: Codec, disk: map<string, Dir>, now: int): seq<Entry> {
    Listing.Filter(LoadAll(codec, disk), (e: Entry) => e.nextAttempt <= now)
  }

  // ---- one step each --------------------------------------------------------------------------------

  function Found(disk: map<string, Dir>, id: string): Option<Dir> {
    if id in disk then Some(disk[id]) else None
  }

  function Put(disk: map<string, Dir>, id: string, d: Option<Dir>): map<string, Dir> {
    match d case None => disk - {id} case Some(dir) => disk[id := dir]
  }

  function Enqueued(codec: Codec, disk: map<string, Dir>, entry: Entry, raw: string): map<string, Dir> {
    Put(disk, entry.id, ExecAll(Found(disk, entry.id), Enqueue([raw], [codec.encode(entry)])))
  }

  function Rewritten(codec: Codec, disk: map<string, Dir>, entry: Entry): map<string, Dir> {
    Put(disk, entry.id, ExecAll(Found(disk, entry.id), WriteMeta([codec.encode(entry)])))
  }

  function Later(entry: Entry, error: string, at: int): Entry {
    entry.(attempts := entry.attempts + 1, nextAttempt := at, lastError := error)
  }

  /** What one retry of an entry does to the relay. */
  function Retried(codec: Codec, backoff: Backoff, r: Relay, entry: Entry, attempt: Attempt, now: int): Relay {
    if entry.id !in r.disk || r.disk[entry.id].eml.None? then r.(disk := r.disk - {entry.id})
    else match attempt
      case Delivered => r.(sent := r.sent + 1, disk := r.disk - {entry.id})
      case Permanent(_) =>
        r.(failed := r.failed + 1, disk := r.disk - {entry.id}, reported := r.reported + [entry.id])
      case Temporary(error) =>
        match backoff(entry.attempts + 1)
        case None =>
          r.(failed := r.failed + 1, disk := r.disk - {entry.id}, reported := r.reported + [entry.id])
        case Some(wait) => r.(disk := Rewritten(codec, r.disk, Later(entry, error, now + wait)))
  }

  /** How a submission ends: at once, or on the queue. */
  datatype Submission = SentNow | RefusedNow | Deferred(entry: Entry, raw: string)

  function Submitted(codec: Codec, r: Relay, s: Submission): Relay {
    match s
    case SentNow => r.(sent := r.sent + 1)
    case RefusedNow => r.(failed := r.failed + 1)
    case Deferred(entry, raw) => r.(disk := Enqueued(codec, r.disk, entry, raw))
  }

  function Passed(codec: Codec, backoff: Backoff, r: Relay, due: seq<Entry>, attempts: string -> Attempt, now: int): Relay {
    if due == [] then r
    else
      var last := due[|due| - 1];
      Retried(codec, backoff, Passed(codec, backoff, r, due[..|due| - 1], attempts, now), last, attempts(last.id), now)
  }

  // ---- the relay object --------------------------------------------------------------------------------

  class RelayState {
    const codec: Codec
    const backoff: Backoff
    var disk: map<string, Dir>
    var sent: nat
    var failed: nat
    var reported: seq<string>

    constructor (codec: Codec, backoff: Backoff, disk: map<string, Dir>)
      ensures this.codec == codec && this.backoff == backoff
      ensures Abs() == Relay(disk, 0, 0, [])
    {
      this.codec, this.backoff, this.disk := codec, backoff, disk;
      sent, failed, reported := 0, 0, [];
    }

    function Abs(): Relay
      reads this
    {
      Relay(disk, sent, failed, reported)
    }

    /** One file operation after the other, in the directory of one id. */
    method Execute(id: string, ops: seq<FileOp>)
      modifies this`disk
      ensures disk == Put(old(disk), id, ExecAll(Found(old(disk), id), ops))
    {
      hide Exec;
      var d := Found(disk, id);
      for i := 0 to |ops|
        invariant disk == old(disk) && d == ExecAll(Found(disk, id), ops[..i])
      {
        ExecAllSnoc(Found(disk, id), ops, i);
        d := Exec(d, ops[i]);
      }
      assert ops[..|ops|] == ops;
      disk := Put(disk, id, d);
    }

    method TakeOn(entry: Entry, raw: string)
      modifies this`disk
      ensures disk == Enqueued(codec, old(disk), entry, raw)
    {
      Execute(entry.id, Enqueue([raw], [codec.encode(entry)]));
    }

    /** Another failed attempt; None when the schedule has run out. */
    method Defer(entry: Entry, error: string, now: int) returns (next: Option<Entry>)
      modifies this`disk
      ensures match backoff(entry.attempts + 1)
              case None => next == None && disk == old(disk) - {entry.id}
              case Some(wait) =>
                && next == Some(Later(entry, error, now + wait))
                && disk == Rewritten(codec, old(disk), Later(entry, error, now + wait))
    {
      var attempts := entry.attempts + 1;
      var wait := backoff(attempts);
      if wait.None? {
        Remove(entry.id);
        return None;
      }
      var updated := entry.(attempts := attempts, nextAttempt := now + wait.value, lastError := error);
      Execute(entry.id, WriteMeta([codec.encode(updated)]));
      return Some(updated);
    }

    /** A directory that is not there is not an error. */
    method Remove(id: string)
      modifies this`disk
      ensures disk == old(disk) - {id}
    {
      disk := disk - {id};
    }

    method RetryOne(entry: Entry, attempt: Attempt, now: int)
      modifies this
      ensures Abs() == Retried(codec, backoff, old(Abs()), entry, attempt, now)
    {
      hide ExecAll;
      if entry.id !in disk || disk[entry.id].eml.None? {
        Remove(entry.id);
        return;
      }
      match attempt
      case Delivered =>
        sent := sent + 1;
        Remove(entry.id);
      case Permanent(error) =>
        failed := failed + 1;
        Remove(entry.id);
        reported := reported + [entry.id];
      case Temporary(error) =>
        var next := Defer(entry, error, now);
        if next.None? {
          failed := failed + 1;
          reported := reported + [entry.id];
        }
    }

    method Submit(s: Submission)
      modifies this
      ensures Abs() == Submitted(codec, old(Abs()), s)
    {
      match s
      case SentNow => sent := sent + 1;
      case RefusedNow => failed := failed + 1;
      case Deferred(entry, raw) => TakeOn(entry, raw);
    }

    /** One pass over what is due, one message at a time. */
    method Pass(attempts: string -> Attempt, now: int)
      modifies this
      ensures Abs() == Passed(codec, backoff, old(Abs()), Due(codec, old(disk), now), attempts, now)
    {
      hide Retried, Due;
      var due := Due(codec, disk, now);
      for i := 0 to |due|
        invariant Abs() == Passed(codec, backoff, old(Abs()), due[..i], attempts, now)
      {
        assert due[..i + 1][..i] == due[..i];
        RetryOne(due[i], attempts(due[i].id), now);
      }
      assert due[..|due|] == due;
    }
  }

  // ---- conservation --------------------------------------------------------------------------------------

  ghost function Waiting(codec: Codec, disk: map<string, Dir>): set<string> {
    set id | id in disk && EntryOf(codec, disk, id).Some?
  }

  /** What can be read is filed under its own id, with its message beside it. */
  ghost predicate Sound(codec: Codec, disk: map<string, Dir>) {
    forall id :: id in disk && EntryOf(codec, disk, id).Some? ==>
      EntryOf(codec, disk, id).value.id == id && disk[id].eml.Some?
  }

  lemma EnqueuedIs(codec: Codec, disk: map<string, Dir>, entry: Entry, raw: string)
    requires entry.id !in disk
    ensures Enqueued(codec, disk, entry, raw) == disk[entry.id := Dir(Some(raw), Some(codec.encode(entry)), None)]
  {
    Enqueues([raw], [codec.encode(entry)]);
    OneChunk(raw);
    OneChunk(codec.encode(entry));
    hide ExecAll, Enqueue;
  }

  lemma OneChunk(s: string)
    ensures Concat([s]) == s
  {
    assert [s][..0] == [];
  }

  lemma RewrittenIs(codec: Codec, disk: map<string, Dir>, entry: Entry)
    requires entry.id in disk
    ensures Rewritten(codec, disk, entry)
         == disk[entry.id := Dir(disk[entry.id].eml, Some(codec.encode(entry)), None)]
  {
    WritesMeta(disk[entry.id], [codec.encode(entry)]);
    OneChunk(codec.encode(entry));
    hide ExecAll, WriteMeta;
  }

  ghost function Total(codec: Codec, r: Relay): nat {
    r.sent + r.failed + |Waiting(codec, r.disk)|
  }

  lemma WaitingWithout(codec: Codec, disk: map<string, Dir>, id: string)
    requires Sound(codec, disk)
    ensures Waiting(codec, disk - {id}) == Waiting(codec, disk) - {id} && Sound(codec, disk - {id})
  {
    var less := disk - {id};
    assert forall x :: x in less ==> EntryOf(codec, less, x) == EntryOf(codec, disk, x);
  }

  lemma WaitingWith(codec: Codec, disk: map<string, Dir>, entry: Entry, eml: string)
    requires Faithful(codec) && Sound(codec, disk)
    ensures var disk' := disk[entry.id := Dir(Some(eml), Some(codec.encode(entry)), None)];
            && Waiting(codec, disk') == Waiting(codec, disk) + {entry.id} && Sound(codec, disk')
            && EntryOf(codec, disk', entry.id) == Some(entry)
            && forall id :: id != entry.id ==> EntryOf(codec, disk', id) == EntryOf(codec, disk, id)
  {
    var disk' := disk[entry.id := Dir(Some(eml), Some(codec.encode(entry)), None)];
    assert forall x :: x in disk && x != entry.id ==> EntryOf(codec, disk', x) == EntryOf(codec, disk, x);
  }

  // ---- runs ----------------------------------------------------------------------------------------------

  datatype Event = Submit(s: Submission) | Retry(id: string, attempt: Attempt, now: int)

  /** The retry loop takes up an entry as it stands; an id that is not waiting is not tried. */
  function Apply(codec: Codec, backoff: Backoff, r: Relay, e: Event): Relay {
    match e
    case Submit(s) => Submitted(codec, r, s)
    case Retry(id, attempt, now) =>
      match EntryOf(codec, r.disk, id)
      case None => r
      case Some(entry) => Retried(codec, backoff, r, entry, attempt, now)
  }

  function Run(codec: Codec, backoff: Backoff, r: Relay, events: seq<Event>): Relay {
    if events == [] then r
    else Apply(codec, backoff, Run(codec, backoff, r, events[..|events| - 1]), events[|events| - 1])
  }

  function Submissions(events: seq<Event>): nat {
    if events == [] then 0
    else Submissions(events[..|events| - 1]) + if events[|events| - 1].Submit? then 1 else 0
  }

  function RefusedAtOnce(events: seq<Event>): nat {
    if events == [] then 0
    else RefusedAtOnce(events[..|events| - 1]) + if events[|events| - 1] == Submit(RefusedNow) then 1 else 0
  }

  /** Ids handed out so far: those on disk at the start, and those taken on since. */
  ghost function Used(r: Relay, events: seq<Event>): set<string> {
    if events == [] then r.disk.Keys
    else
      var last := events[|events| - 1];
      Used(r, events[..|events| - 1]) + if last.Submit? && last.s.Deferred? then {last.s.entry.id} else {}
  }

  /** An id that is taken on is new. */
  ghost predicate FreshIds(r: Relay, events: seq<Event>) {
    forall k :: 0 <= k < |events| && events[k].Submit? && events[k].s.Deferred? ==>
      events[k].s.entry.id !in Used(r, events[..k])
  }

  /** The books after part of a run that began with r. */
  ghost predicate Balanced(codec: Codec, r: Relay, events: seq<Event>, now: Relay) {
    && Sound(codec, now.disk) && now.disk.Keys <= Used(r, events)
    && Total(codec, now) == Total(codec, r) + Submissions(events)
    && now.failed == r.failed + RefusedAtOnce(events) + |now.reported|
    && ReportedOnce(now.reported, Used(r, events), now.disk.Keys)
  }

  /** Each report is about another id, one that was used and is no longer queued. */
  ghost predicate ReportedOnce(reported: seq<string>, used: set<string>, queued: set<string>) {
    && (forall i, j :: 0 <= i < j < |reported| ==> reported[i] != reported[j])
    && (forall i :: 0 <= i < |reported| ==> reported[i] in used && reported[i] !in queued)
  }

  lemma ReportStep(reported: seq<string>, used: set<string>, before: set<string>, after: set<string>,
                   added: set<string>, report: Option<string>)
    requires ReportedOnce(reported, used, before) && before <= used && added !! used && after <= before + added
    requires report.Some? ==> report.value in before && report.value !in after
    ensures ReportedOnce(reported + if report.Some? then [report.value] else [], used + added, after)
  {
  }

  lemma RetryKeepsTotal(codec: Codec, backoff: Backoff, r: Relay, entry: Entry, attempt: Attempt, now: int)
    requires Faithful(codec) && Sound(codec, r.disk) && EntryOf(codec, r.disk, entry.id) == Some(entry)
    ensures var r' := Retried(codec, backoff, r, entry, attempt, now);
            && Sound(codec, r'.disk) && r'.disk.Keys <= r.disk.Keys && Total(codec, r') == Total(codec, r)
            && (|| (r'.reported == r.reported && r'.failed == r.failed)
                || (r'.reported == r.reported + [entry.id] && r'.failed == r.failed + 1 && entry.id !in r'.disk))
  {
    WaitingWithout(codec, r.disk, entry.id);
    assert entry.id in Waiting(codec, r.disk);
    if attempt.Temporary? && backoff(entry.attempts + 1).Some? {
      var later := Later(entry, attempt.error, now + backoff(entry.attempts + 1).value);
      RewrittenIs(codec, r.disk, later);
      WaitingWith(codec, r.disk, later, r.disk[entry.id].eml.value);
      assert Waiting(codec, r.disk) + {entry.id} == Waiting(codec, r.disk);
    }
    hide Rewritten, Sound, EntryOf, Waiting, Faithful;
  }

  /** The books after one more event, from what it added, refused, put away and reported. */
  lemma BooksStep(codec: Codec, r: Relay, events: seq<Event>, now: Relay, e: Event, next: Relay,
                  added: set<string>, report: Option<string>)
    requires Balanced(codec, r, events, now)
    requires Sound(codec, next.disk) && next.disk.Keys <= now.disk.Keys + added
    requires added !! Used(r, events) && Used(r, events + [e]) == Used(r, events) + added
    requires Total(codec, next) == Total(codec, now) + if e.Submit? then 1 else 0
    requires next.failed == now.failed + (if e == Submit(RefusedNow) then 1 else 0) + (if report.Some? then 1 else 0)
    requires next.reported == now.reported + if report.Some? then [report.value] else []
    requires report.Some? ==> report.value in now.disk && report.value !in next.disk
    ensures Balanced(codec, r, events + [e], next)
  {
    var all := events + [e];
    assert all[..|events|] == events;
    ReportStep(now.reported, Used(r, events), now.disk.Keys, next.disk.Keys, added, report);
    hide ReportedOnce;
    assert Submissions(all) == Submissions(events) + if e.Submit? then 1 else 0;
    assert RefusedAtOnce(all) == RefusedAtOnce(events) + if e == Submit(RefusedNow) then 1 else 0;
    hide Submissions, RefusedAtOnce, Used, Total, Sound;
  }

  lemma UsedSnoc(r: Relay, events: seq<Event>, e: Event)
    ensures Used(r, events + [e]) == Used(r, events) + if e.Submit? && e.s.Deferred? then {e.s.entry.id} else {}
  {
    assert (events + [e])[..|events|] == events;
  }

  lemma SubmitBalances(codec: Codec, r: Relay, events: seq<Event>, now: Relay, s: Submission)
    requires Faithful(codec) && Balanced(codec, r, events, now)
    requires s.Deferred? ==> s.entry.id !in Used(r, events)
    ensures Balanced(codec, r, events + [Submit(s)], Submitted(codec, now, s))
  {
    hide Used;
    UsedSnoc(r, events, Submit(s));
    var added := if s.Deferred? then {s.entry.id} else {};
    if s.Deferred? {
      EnqueuedIs(codec, now.disk, s.entry, s.raw);
      WaitingWith(codec, now.disk, s.entry, s.raw);
      assert s.entry.id !in Waiting(codec, now.disk);
    }
    hide Enqueued, Sound, EntryOf, Waiting, Faithful;
    assert Sound(codec, now.disk);
    BooksStep(codec, r, events, now, Submit(s), Submitted(codec, now, s), added, None);
  }

  lemma RetryBalances(codec: Codec, backoff: Backoff, r: Relay, events: seq<Event>, now: Relay, e: Event)
    requires Faithful(codec) && Balanced(codec, r, events, now) && e.Retry?
    ensures Balanced(codec, r, events + [e], Apply(codec, backoff, now, e))
  {
    hide Used;
    UsedSnoc(r, events, e);
    var next := Apply(codec, backoff, now, e);
    var entry := EntryOf(codec, now.disk, e.id);
    if entry.Some? {
      assert e.id in now.disk && entry.value.id == e.id;
      RetryKeepsTotal(codec, backoff, now, entry.value, e.attempt, e.now);
    }
    hide Retried, Sound, EntryOf, Waiting, Faithful, Total;
    BooksStep(codec, r, events, now, e, next, {}, if next.failed == now.failed then None else Some(e.id));
  }

  /**
   Conservation.  At every point of every run, the messages the relay began with and
   took on are those it has sent, those it has failed, and those still waiting; and
   every failure of a queued message is reported, once.
   */
  lemma {:induction false} NothingIsLost(codec: Codec, backoff: Backoff, r: Relay, events: seq<Event>)
    requires Faithful(codec) && Sound(codec, r.disk) && r.reported == [] && FreshIds(r, events)
    ensures Balanced(codec, r, events, Run(codec, backoff, r, events))
    decreases |events|
  {
    if events != [] {
      var init, last := events[..|events| - 1], events[|events| - 1];
      forall k | 0 <= k < |init| && init[k].Submit? && init[k].s.Deferred?
        ensures init[k].s.entry.id !in Used(r, init[..k])
      {
        assert init[k] == events[k] && init[..k] == events[..k];
      }
      NothingIsLost(codec, backoff, r, init);
      assert events == init + [last];
      var now := Run(codec, backoff, r, init);
      hide Balanced, Sound, Faithful, Retried, Submitted;
      if last.Submit? {
        SubmitBalances(codec, r, init, now, last.s);
      } else {
        RetryBalances(codec, backoff, r, init, now, last);
      }
    }
  }

  // ---- a pass is a run of retries --------------------------------------------------------------------------

  ghost predicate OneEach(s: seq<Entry>) {
    forall i, j :: 0 <= i < j < |s| ==> s[i].id != s[j].id
  }

  ghost predicate Current(codec: Codec, disk: map<string, Dir>, s: seq<Entry>) {
    forall i :: 0 <= i < |s| ==> EntryOf(codec, disk, s[i].id) == Some(s[i])
  }

  lemma {:induction false} InsertOneEach(s: seq<Entry>, x: Entry)
    requires OneEach(s) && forall i :: 0 <= i < |s| ==> s[i].id != x.id
    ensures OneEach(Listing.Insert(s, x, Oldest))
  {
    if s != [] && Oldest(s[0]) >= Oldest(x) {
      InsertOneEach(s[1..], x);
      Listing.InsertContents(s[1..], x, Oldest);
      var rest := Listing.Insert(s[1..], x, Oldest);
      forall j | 0 <= j < |rest| ensures rest[j].id != s[0].id {
        Listing.MemberOf(rest, s[1..] + [x], rest[j]);
      }
    }
  }

  lemma {:induction false} SortOneEach(s: seq<Entry>)
    requires OneEach(s)
    ensures OneEach(Listing.SortDescending(s, Oldest))
  {
    if s != [] {
      var init, last := s[..|s| - 1], s[|s| - 1];
      SortOneEach(init);
      Listing.SortContents(init, Oldest);
      var sorted := Listing.SortDescending(init, Oldest);
      forall i | 0 <= i < |sorted| ensures sorted[i].id != last.id {
        Listing.MemberOf(sorted, init, sorted[i]);
      }
      InsertOneEach(sorted, last);
    }
  }

  lemma {:induction false} FilterOneEach(s: seq<Entry>, keep: Entry -> bool)
    requires OneEach(s)
    ensures OneEach(Listing.Filter(s, keep))
  {
    if s != [] {
      var init, last := s[..|s| - 1], s[|s| - 1];
      FilterOneEach(init, keep);
      var kept := Listing.Filter(init, keep);
      forall i | 0 <= i < |kept| ensures kept[i].id != last.id {
        Listing.FilterMembers(init, keep, kept[i]);
      }
    }
  }

  lemma {:induction false} EntriesCurrent(codec: Codec, disk: map<string, Dir>, ids: seq<string>)
    requires Sound(codec, disk) && Ascending(ids)
    ensures Current(codec, disk, Entries(codec, disk, ids)) && OneEach(Entries(codec, disk, ids))
    ensures forall i :: 0 <= i < |Entries(codec, disk, ids)| ==> Entries(codec, disk, ids)[i].id in ids
  {
    if ids != [] {
      var init, last := ids[..|ids| - 1], ids[|ids| - 1];
      EntriesCurrent(codec, disk, init);
      hide EntryOf;
      forall k | 0 <= k < |init| ensures init[k] != last {
        LessIsStrict(ids[k], last);
      }
      assert ids == init + [last];
    }
  }

  /** What is due is as it is on disk, one entry to an id. */
  lemma DueIsCurrent(codec: Codec, disk: map<string, Dir>, now: int)
    requires Sound(codec, disk)
    ensures Current(codec, disk, Due(codec, disk, now)) && OneEach(Due(codec, disk, now))
  {
    var entries := Entries(codec, disk, Sorted(disk.Keys));
    EntriesCurrent(codec, disk, Sorted(disk.Keys));
    SortOneEach(entries);
    Listing.SortContents(entries, Oldest);
    var keep := (e: Entry) => e.nextAttempt <= now;
    FilterOneEach(LoadAll(codec, disk), keep);
    var due := Due(codec, disk, now);
    hide EntryOf, Entries;
    forall i | 0 <= i < |due| ensures EntryOf(codec, disk, due[i].id) == Some(due[i]) {
      Listing.FilterMembers(LoadAll(codec, disk), keep, due[i]);
      Listing.MemberOf(LoadAll(codec, disk), entries, due[i]);
    }
  }

  lemma RetriedLeavesOthers(codec: Codec, backoff: Backoff, r: Relay, entry: Entry, attempt: Attempt, now: int, id: string)
    requires id != entry.id
    ensures EntryOf(codec, Retried(codec, backoff, r, entry, attempt, now).disk, id) == EntryOf(codec, r.disk, id)
  {
    hide ExecAll;
  }

  function RetriesOf(due: seq<Entry>, attempts: string -> Attempt, now: int): seq<Event> {
    seq(|due|, i requires 0 <= i < |due| => Retry(due[i].id, attempts(due[i].id), now))
  }

  lemma {:induction false} PassedIsRun(codec: Codec, backoff: Backoff, r: Relay, due: seq<Entry>, rest: seq<Entry>,
                                       attempts: string -> Attempt, now: int)
    requires Current(codec, r.disk, due + rest) && OneEach(due + rest)
    ensures Passed(codec, backoff, r, due, attempts, now) == Run(codec, backoff, r, RetriesOf(due, attempts, now))
    ensures Current(codec, Passed(codec, backoff, r, due, attempts, now).disk, rest)
    decreases |due|
  {
    if due == [] {
      assert due + rest == rest;
    } else {
      var init, last := due[..|due| - 1], due[|due| - 1];
      assert init + ([last] + rest) == due + rest;
      PassedIsRun(codec, backoff, r, init, [last] + rest, attempts, now);
      var before := Passed(codec, backoff, r, init, attempts, now);
      assert ([last] + rest)[0] == last;
      assert RetriesOf(due, attempts, now)[..|due| - 1] == RetriesOf(init, attempts, now);
      hide EntryOf, Retried;
      forall j | 0 <= j < |rest|
        ensures EntryOf(codec, Retried(codec, backoff, before, last, attempts(last.id), now).disk, rest[j].id) == Some(rest[j])
      {
        assert ([last] + rest)[j + 1] == rest[j];
        assert (due + rest)[|due| - 1] == last && (due + rest)[|due| + j] == rest[j];
        RetriedLeavesOthers(codec, backoff, before, last, attempts(last.id), now, rest[j].id);
      }
    }
  }

  /** So what holds over runs holds over passes: no retry works from a stale entry. */
  lemma PassIsRun(codec: Codec, backoff: Backoff, r: Relay, attempts: string -> Attempt, now: int)
    requires Sound(codec, r.disk)
    ensures var due := Due(codec, r.disk, now);
            Passed(codec, backoff, r, due, attempts, now) == Run(codec, backoff, r, RetriesOf(due, attempts, now))
  {
    var due := Due(codec, r.disk, now);
    DueIsCurrent(codec, r.disk, now);
    assert due + [] == due;
    PassedIsRun(codec, backoff, r, due, [], attempts, now);
  }

  // ---- no entry waits for ever ---------------------------------------------------------------------------

  /** The schedule has a wait for each of the next k failures. */
  predicate Lasts(backoff: Backoff, attempts: nat, k: nat) {
    k == 0 || (Lasts(backoff, attempts, k - 1) && backoff(attempts + k).Some?)
  }

  predicate Vain(e: Event, id: string) {
    e.Retry? && e.id == id && e.attempt.Temporary?
  }

  function VainTries(events: seq<Event>, id: string): nat {
    if events == [] then 0
    else VainTries(events[..|events| - 1], id) + if Vain(events[|events| - 1], id) then 1 else 0
  }

  /** Some attempt came to an end of its own: delivered, or refused for good. */
  predicate Settled(events: seq<Event>, id: string) {
    events != [] && (Settled(events[..|events| - 1], id) || Settles(events[|events| - 1], id))
  }

  predicate Settles(e: Event, id: string) {
    e.Retry? && e.id == id && !e.attempt.Temporary?
  }

  /** One attempt: the entry goes, or counts one more and waits as long as the schedule says. */
  ghost predicate Tried(backoff: Backoff, entry: Entry, attempt: Attempt, now: int, after: Option<Entry>) {
    match after
    case None => attempt.Temporary? ==> backoff(entry.attempts + 1) == None
    case Some(e) =>
      && attempt.Temporary? && backoff(entry.attempts + 1).Some?
      && e == entry.(attempts := entry.attempts + 1, lastError := attempt.error,
                     nextAttempt := now + backoff(entry.attempts + 1).value)
  }

  lemma OneAttempt(codec: Codec, backoff: Backoff, r: Relay, entry: Entry, attempt: Attempt, now: int)
    requires Faithful(codec) && Sound(codec, r.disk) && EntryOf(codec, r.disk, entry.id) == Some(entry)
    ensures var r' := Retried(codec, backoff, r, entry, attempt, now);
            Sound(codec, r'.disk) && Tried(backoff, entry, attempt, now, EntryOf(codec, r'.disk, entry.id))
  {
    RetryKeepsTotal(codec, backoff, r, entry, attempt, now);
    if attempt.Temporary? && backoff(entry.attempts + 1).Some? {
      var later := Later(entry, attempt.error, now + backoff(entry.attempts + 1).value);
      RewrittenIs(codec, r.disk, later);
      WaitingWith(codec, r.disk, later, r.disk[entry.id].eml.value);
    }
    hide Rewritten, Faithful, Waiting;
  }

  lemma EnqueueLeavesOthers(codec: Codec, disk: map<string, Dir>, entry: Entry, raw: string, id: string)
    requires id != entry.id
    ensures EntryOf(codec, Enqueued(codec, disk, entry, raw), id) == EntryOf(codec, disk, id)
  {
    hide ExecAll;
  }

  lemma {:induction false} UsedGrows(r: Relay, past: seq<Event>, more: seq<Event>)
    ensures Used(r, past) <= Used(r, past + more)
  {
    if more == [] {
      assert past + more == past;
    } else {
      var init := more[..|more| - 1];
      UsedGrows(r, past, init);
      assert (past + more)[..|past + more| - 1] == past + init;
    }
  }

  /**
   What became of an entry: it is still there exactly if no attempt since has settled it
   and the schedule lasts for all that were in vain, and then it has counted them.
   */
  ghost predicate Counted(backoff: Backoff, before: Option<Entry>, more: seq<Event>, id: string, after: Option<Entry>) {
    var k := VainTries(more, id);
    && (after.Some? <==> before.Some? && !Settled(more, id) && Lasts(backoff, before.value.attempts, k))
    && (after.Some? ==> after.value.attempts == before.value.attempts + k)
  }

  lemma CountedStep(codec: Codec, backoff: Backoff, now: Relay, before: Option<Entry>, init: seq<Event>, e: Event, id: string)
    requires Faithful(codec) && Sound(codec, now.disk)
    requires Counted(backoff, before, init, id, EntryOf(codec, now.disk, id))
    requires e.Submit? && e.s.Deferred? ==> e.s.entry.id != id
    ensures Counted(backoff, before, init + [e], id, EntryOf(codec, Apply(codec, backoff, now, e).disk, id))
  {
    assert (init + [e])[..|init|] == init;
    var entry := if e.Retry? then EntryOf(codec, now.disk, e.id) else None;
    if e.Submit? && e.s.Deferred? {
      EnqueueLeavesOthers(codec, now.disk, e.s.entry, e.s.raw, id);
    }
    if entry.Some? {
      assert entry.value.id == e.id;
      if e.id == id {
        OneAttempt(codec, backoff, now, entry.value, e.attempt, e.now);
      } else {
        RetriedLeavesOthers(codec, backoff, now, entry.value, e.attempt, e.now, id);
      }
    }
    hide Sound, Faithful, EntryOf, Retried, Enqueued;
  }

  /** Over any run, from the moment an id has been taken on. */
  lemma {:induction false} CountsAttempts(codec: Codec, backoff: Backoff, r: Relay, past: seq<Event>, more: seq<Event>, id: string)
    requires Faithful(codec) && Sound(codec, r.disk) && r.reported == [] && FreshIds(r, past + more)
    requires id in Used(r, past)
    ensures Counted(backoff, EntryOf(codec, Run(codec, backoff, r, past).disk, id), more, id,
                    EntryOf(codec, Run(codec, backoff, r, past + more).disk, id))
  {
    hide *;
    if more == [] {
      assert past + more == past;
      CountedNothing(backoff, EntryOf(codec, Run(codec, backoff, r, past).disk, id), id);
    } else {
      var init, e := more[..|more| - 1], more[|more| - 1];
      assert past + more == (past + init) + [e] && more == init + [e];
      FreshBefore(r, past + init, e);
      CountsAttempts(codec, backoff, r, past, init, id);
      NothingIsLost(codec, backoff, r, past + init);
      UsedGrows(r, past, init);
      var now := Run(codec, backoff, r, past + init);
      RunSnoc(codec, backoff, r, past + init, e);
      SoundNow(codec, r, past + init, now);
      CountedStep(codec, backoff, now, EntryOf(codec, Run(codec, backoff, r, past).disk, id), init, e, id);
    }
  }

  lemma CountedNothing(backoff: Backoff, entry: Option<Entry>, id: string)
    ensures Counted(backoff, entry, [], id, entry)
  {
  }

  lemma RunSnoc(codec: Codec, backoff: Backoff, r: Relay, events: seq<Event>, e: Event)
    ensures Run(codec, backoff, r, events + [e]) == Apply(codec, backoff, Run(codec, backoff, r, events), e)
  {
    hide Apply;
    assert (events + [e])[..|events|] == events;
  }

  lemma SoundNow(codec: Codec, r: Relay, events: seq<Event>, now: Relay)
    requires Balanced(codec, r, events, now)
    ensures Sound(codec, now.disk)
  {
    hide Sound;
  }

  lemma FreshBefore(r: Relay, events: seq<Event>, e: Event)
    requires FreshIds(r, events + [e])
    ensures FreshIds(r, events)
    ensures e.Submit? && e.s.Deferred? ==> e.s.entry.id !in Used(r, events)
  {
    var all := events + [e];
    forall k | 0 <= k < |events| && events[k].Submit? && events[k].s.Deferred?
      ensures events[k].s.entry.id !in Used(r, events[..k])
    {
      assert all[k] == events[k] && all[..k] == events[..k];
    }
    assert all[|events|] == e && all[..|events|] == events;
  }

  /** A schedule that stops: an id taken on and then tried in vain that often is not waiting, whatever else went on. */
  lemma RetriesEnd(codec: Codec, backoff: Backoff, r: Relay, past: seq<Event>, more: seq<Event>, id: string, stop: nat)
    requires Faithful(codec) && Sound(codec, r.disk) && r.reported == [] && FreshIds(r, past + more)
    requires id in Used(r, past) && VainTries(more, id) > stop
    requires forall n :: n >= stop ==> backoff(n) == None
    ensures id !in Waiting(codec, Run(codec, backoff, r, past + more).disk)
  {
    CountsAttempts(codec, backoff, r, past, more, id);
    hide Sound, Faithful, Run, Used, VainTries, Settled;
  }

  // ---- passes made on time -------------------------------------------------------------------------------

  /** The life of the relay: submissions, and passes over the queue, each with its outcomes. */
  datatype Turn = Take(s: Submission) | Pass(attempts: string -> Attempt, now: int)

  function Turned(codec: Codec, backoff: Backoff, r: Relay, turns: seq<Turn>): Relay {
    if turns == [] then r
    else
      var before := Turned(codec, backoff, r, turns[..|turns| - 1]);
      match turns[|turns| - 1]
      case Take(s) => Submitted(codec, before, s)
      case Pass(attempts, now) => Passed(codec, backoff, before, Due(codec, before.disk, now), attempts, now)
  }

  function Passes(turns: seq<Turn>): nat {
    if turns == [] then 0
    else Passes(turns[..|turns| - 1]) + if turns[|turns| - 1].Pass? then 1 else 0
  }

  /** Ids taken on are new, and a pass comes when the entry is due. */
  ghost predicate OnTime(codec: Codec, backoff: Backoff, r: Relay, turns: seq<Turn>, id: string) {
    turns == [] ||
    var init := turns[..|turns| - 1];
    && OnTime(codec, backoff, r, init, id)
    && var before := Turned(codec, backoff, r, init);
    match turns[|turns| - 1]
    case Take(s) => s.Deferred? ==> s.entry.id !in before.disk && s.entry.id != id
    case Pass(_, now) =>
      EntryOf(codec, before.disk, id).Some? ==> EntryOf(codec, before.disk, id).value.nextAttempt <= now
  }

  lemma {:induction false} EntriesHold(codec: Codec, disk: map<string, Dir>, ids: seq<string>, id: string)
    requires id in ids && EntryOf(codec, disk, id).Some?
    ensures EntryOf(codec, disk, id).value in Entries(codec, disk, ids)
  {
    hide EntryOf;
    var init, last := ids[..|ids| - 1], ids[|ids| - 1];
    assert ids == init + [last];
    if id != last {
      EntriesHold(codec, disk, init, id);
    }
  }

  /** What is waiting and whose time has come is due. */
  lemma DueHolds(codec: Codec, disk: map<string, Dir>, now: int, id: string)
    requires EntryOf(codec, disk, id).Some? && EntryOf(codec, disk, id).value.nextAttempt <= now
    ensures EntryOf(codec, disk, id).value in Due(codec, disk, now)
  {
    var e := EntryOf(codec, disk, id).value;
    var entries := Entries(codec, disk, Sorted(disk.Keys));
    EntriesHold(codec, disk, Sorted(disk.Keys), id);
    Listing.SortContents(entries, Oldest);
    Listing.MemberOf(entries, LoadAll(codec, disk), e);
    Listing.FilterMembers(LoadAll(codec, disk), (e: Entry) => e.nextAttempt <= now, e);
    hide EntryOf, Entries;
  }

  /** What a list of retries does to one id: an attempt if it is on the list, and nothing if it is not. */
  ghost predicate TriedOnce(backoff: Backoff, due: seq<Entry>, attempts: string -> Attempt, now: int, id: string,
                            before: Option<Entry>, after: Option<Entry>) {
    if exists i :: 0 <= i < |due| && due[i].id == id
    then before.Some? && Tried(backoff, before.value, attempts(id), now, after)
    else after == before
  }

  lemma {:induction false} PassedTries(codec: Codec, backoff: Backoff, r: Relay, due: seq<Entry>,
                                       attempts: string -> Attempt, now: int, id: string)
    requires Faithful(codec) && Sound(codec, r.disk) && Current(codec, r.disk, due) && OneEach(due)
    ensures var after := Passed(codec, backoff, r, due, attempts, now);
            && Sound(codec, after.disk)
            && TriedOnce(backoff, due, attempts, now, id, EntryOf(codec, r.disk, id), EntryOf(codec, after.disk, id))
    decreases |due|
  {
    if due != [] {
      var init, last := due[..|due| - 1], due[|due| - 1];
      assert due == init + [last];
      PassedTries(codec, backoff, r, init, attempts, now, id);
      PassedTries(codec, backoff, r, init, attempts, now, last.id);
      var before := Passed(codec, backoff, r, init, attempts, now);
      assert forall i :: 0 <= i < |init| ==> init[i] == due[i];
      hide EntryOf, Retried, Sound, Faithful, Tried;
      assert EntryOf(codec, before.disk, last.id) == Some(last);
      OneAttempt(codec, backoff, before, last, attempts(last.id), now);
      if last.id == id {
        assert due[|due| - 1].id == id;
      } else {
        RetriedLeavesOthers(codec, backoff, before, last, attempts(last.id), now, id);
        assert (exists i :: 0 <= i < |due| && due[i].id == id) <==> exists i :: 0 <= i < |init| && init[i].id == id;
      }
    }
  }

  lemma {:induction false} EntriesRead(codec: Codec, disk: map<string, Dir>, ids: seq<string>, e: Entry)
    requires e in Entries(codec, disk, ids)
    ensures exists id :: id in ids && EntryOf(codec, disk, id) == Some(e)
  {
    hide EntryOf;
    var init, last := ids[..|ids| - 1], ids[|ids| - 1];
    assert ids == init + [last];
    if e in Entries(codec, disk, init) {
      EntriesRead(codec, disk, init, e);
      var id :| id in init && EntryOf(codec, disk, id) == Some(e);
      assert id in ids;
    } else {
      assert last in ids && EntryOf(codec, disk, last) == Some(e);
    }
  }

  lemma DueIsRead(codec: Codec, disk: map<string, Dir>, now: int, e: Entry)
    requires e in Due(codec, disk, now)
    ensures e.nextAttempt <= now && exists id :: id in disk && EntryOf(codec, disk, id) == Some(e)
  {
    var entries := Entries(codec, disk, Sorted(disk.Keys));
    Listing.FilterMembers(LoadAll(codec, disk), (e: Entry) => e.nextAttempt <= now, e);
    Listing.SortContents(entries, Oldest);
    Listing.MemberOf(LoadAll(codec, disk), entries, e);
    hide EntryOf, Entries;
    EntriesRead(codec, disk, Sorted(disk.Keys), e);
  }

  lemma {:induction false} FilterFalls(s: seq<Entry>, keep: Entry -> bool)
    requires Listing.Falling(s, Oldest)
    ensures Listing.Falling(Listing.Filter(s, keep), Oldest)
  {
    if s != [] {
      var init, last := s[..|s| - 1], s[|s| - 1];
      FilterFalls(init, keep);
      var kept := Listing.Filter(init, keep);
      forall i | 0 <= i < |kept| ensures Oldest(kept[i]) >= Oldest(last) {
        Listing.FilterMembers(init, keep, kept[i]);
      }
    }
  }

  /** What is due: exactly the readable entries whose time has come, each once, the longest queued first. */
  lemma DueExactly(codec: Codec, disk: map<string, Dir>, now: int)
    requires Sound(codec, disk)
    ensures var due := Due(codec, disk, now);
            && (forall e :: e in due <==> EntryOf(codec, disk, e.id) == Some(e) && e.nextAttempt <= now)
            && (forall i, j :: 0 <= i < j < |due| ==> due[i].id != due[j].id && due[i].firstQueued <= due[j].firstQueued)
  {
    var due := Due(codec, disk, now);
    DueIsCurrent(codec, disk, now);
    Listing.SortFalls(Entries(codec, disk, Sorted(disk.Keys)), Oldest);
    FilterFalls(LoadAll(codec, disk), (e: Entry) => e.nextAttempt <= now);
    forall e ensures e in due <==> EntryOf(codec, disk, e.id) == Some(e) && e.nextAttempt <= now {
      if e in due {
        DueIsRead(codec, disk, now, e);
        var i :| 0 <= i < |due| && due[i] == e;
      } else if EntryOf(codec, disk, e.id) == Some(e) && e.nextAttempt <= now {
        DueHolds(codec, disk, now, e.id);
      }
    }
    hide EntryOf, Entries, Listing.Filter, Sorted;
    assert forall i, j :: 0 <= i < j < |due| ==> Oldest(due[i]) >= Oldest(due[j]);
  }

  /** A pass attempts an entry whose time has come, once, and leaves every other as it is. */
  lemma PassTries(codec: Codec, backoff: Backoff, r: Relay, attempts: string -> Attempt, now: int, id: string)
    requires Faithful(codec) && Sound(codec, r.disk)
    ensures var before := EntryOf(codec, r.disk, id);
            var disk' := Passed(codec, backoff, r, Due(codec, r.disk, now), attempts, now).disk;
            var after := EntryOf(codec, disk', id);
            && Sound(codec, disk')
            && if before.Some? && before.value.nextAttempt <= now then Tried(backoff, before.value, attempts(id), now, after)
               else after == before
  {
    hide *;
    var due := Due(codec, r.disk, now);
    DueIsCurrent(codec, r.disk, now);
    DueExactly(codec, r.disk, now);
    PassedTries(codec, backoff, r, due, attempts, now, id);
    DueOrNot(codec, r.disk, due, now, id);
    TriedOnceIs(backoff, due, attempts, now, id, EntryOf(codec, r.disk, id),
                EntryOf(codec, Passed(codec, backoff, r, due, attempts, now).disk, id));
  }

  lemma TriedOnceIs(backoff: Backoff, due: seq<Entry>, attempts: string -> Attempt, now: int, id: string,
                    before: Option<Entry>, after: Option<Entry>)
    requires TriedOnce(backoff, due, attempts, now, id, before, after)
    ensures if exists i :: 0 <= i < |due| && due[i].id == id
            then before.Some? && Tried(backoff, before.value, attempts(id), now, after)
            else after == before
  {
    hide Tried;
  }

  lemma DueOrNot(codec: Codec, disk: map<string, Dir>, due: seq<Entry>, now: int, id: string)
    requires Sound(codec, disk)
    requires forall e :: e in due <==> EntryOf(codec, disk, e.id) == Some(e) && e.nextAttempt <= now
    ensures (exists i :: 0 <= i < |due| && due[i].id == id)
       <==> EntryOf(codec, disk, id).Some? && EntryOf(codec, disk, id).value.nextAttempt <= now
  {
    var e := EntryOf(codec, disk, id);
    if e.Some? && e.value.nextAttempt <= now {
      assert id in disk && e.value.id == id;
      hide EntryOf;
      assert e.value in due;
      var i :| 0 <= i < |due| && due[i] == e.value;
      assert due[i].id == id;
    }
    if i :| 0 <= i < |due| && due[i].id == id {
      assert due[i] in due;
    }
  }

  // ---- what a pass counts --------------------------------------------------------------------------------

  /** The entries a pass at this time may touch. */
  ghost function Ready(codec: Codec, disk: map<string, Dir>, now: int): set<Entry> {
    set id | id in disk && EntryOf(codec, disk, id).Some? && EntryOf(codec, disk, id).value.nextAttempt <= now
      :: EntryOf(codec, disk, id).value
  }

  predicate GivenUp(backoff: Backoff, e: Entry, attempt: Attempt) {
    attempt.Permanent? || (attempt.Temporary? && backoff(e.attempts + 1) == None)
  }

  ghost function Those(ready: set<Entry>, p: Entry -> bool): set<Entry> {
    set e | e in ready && p(e)
  }

  /** The counters and reports after attempts on a set of entries: one each, and about those only. */
  ghost predicate Counts(r: Relay, after: Relay, ready: set<Entry>, sent: Entry -> bool, failed: Entry -> bool) {
    && after.sent == r.sent + |Those(ready, sent)|
    && after.failed == r.failed + |Those(ready, failed)|
    && |after.reported| == |r.reported| + |Those(ready, failed)| && r.reported <= after.reported
    && forall i :: |r.reported| <= i < |after.reported| ==>
         exists e :: e in Those(ready, failed) && e.id == after.reported[i]
  }

  lemma ThoseWith(ready: set<Entry>, e: Entry, p: Entry -> bool)
    requires e !in ready
    ensures Those(ready + {e}, p) == if p(e) then Those(ready, p) + {e} else Those(ready, p)
    ensures |Those(ready + {e}, p)| == |Those(ready, p)| + if p(e) then 1 else 0
  {
    assert e !in Those(ready, p);
  }

  lemma CountsStep(r: Relay, middle: Relay, after: Relay, ready: set<Entry>, e: Entry, sent: Entry -> bool, failed: Entry -> bool)
    requires e !in ready && Counts(r, middle, ready, sent, failed)
    requires after.sent == middle.sent + if sent(e) then 1 else 0
    requires after.failed == middle.failed + if failed(e) then 1 else 0
    requires after.reported == middle.reported + if failed(e) then [e.id] else []
    ensures Counts(r, after, ready + {e}, sent, failed)
  {
    ThoseWith(ready, e, sent);
    ThoseWith(ready, e, failed);
    hide Those;
    forall i | |r.reported| <= i < |after.reported|
      ensures exists x :: x in Those(ready + {e}, failed) && x.id == after.reported[i]
    {
      if i < |middle.reported| {
        assert after.reported[i] == middle.reported[i];
        var x :| x in Those(ready, failed) && x.id == middle.reported[i];
        assert x in Those(ready + {e}, failed);
      } else {
        assert e in Those(ready + {e}, failed);
      }
    }
  }

  lemma CountsNothing(r: Relay, sent: Entry -> bool, failed: Entry -> bool)
    ensures Counts(r, r, {}, sent, failed)
  {
  }

  ghost function SetOf(due: seq<Entry>): set<Entry> {
    set e | e in due
  }

  lemma SetSnoc(init: seq<Entry>, last: Entry)
    ensures SetOf(init + [last]) == SetOf(init) + {last}
    ensures OneEach(init + [last]) ==> last !in SetOf(init)
  {
    var all := init + [last];
    assert all[|init|] == last;
    assert OneEach(all) ==> forall i :: 0 <= i < |init| ==> all[i] == init[i] && all[i].id != last.id;
  }

  lemma OneAttemptCounts(codec: Codec, backoff: Backoff, r: Relay, entry: Entry, attempt: Attempt, now: int)
    requires Sound(codec, r.disk) && EntryOf(codec, r.disk, entry.id) == Some(entry)
    ensures var r' := Retried(codec, backoff, r, entry, attempt, now);
            && r'.sent == r.sent + (if attempt.Delivered? then 1 else 0)
            && r'.failed == r.failed + (if GivenUp(backoff, entry, attempt) then 1 else 0)
            && r'.reported == r.reported + if GivenUp(backoff, entry, attempt) then [entry.id] else []
  {
    assert r.disk[entry.id].eml.Some?;
    hide EntryOf, Rewritten;
    assert r.reported + [] == r.reported;
  }

  lemma {:induction false} PassedCounts(codec: Codec, backoff: Backoff, r: Relay, due: seq<Entry>,
                                        attempts: string -> Attempt, now: int)
    requires Faithful(codec) && Sound(codec, r.disk) && Current(codec, r.disk, due) && OneEach(due)
    ensures Counts(r, Passed(codec, backoff, r, due, attempts, now), SetOf(due),
                   (e: Entry) => attempts(e.id).Delivered?, (e: Entry) => GivenUp(backoff, e, attempts(e.id)))
    decreases |due|
  {
    var sent := (e: Entry) => attempts(e.id).Delivered?;
    var failed := (e: Entry) => GivenUp(backoff, e, attempts(e.id));
    if due == [] {
      CountsNothing(r, sent, failed);
      assert SetOf(due) == {};
    } else {
      var init, last := due[..|due| - 1], due[|due| - 1];
      assert due == init + [last];
      assert forall i :: 0 <= i < |init| ==> init[i] == due[i];
      PassedCounts(codec, backoff, r, init, attempts, now);
      PassedTries(codec, backoff, r, init, attempts, now, last.id);
      SetSnoc(init, last);
      var before := Passed(codec, backoff, r, init, attempts, now);
      hide EntryOf, Retried, Sound, Faithful, Tried, Counts, SetOf, GivenUp;
      assert EntryOf(codec, before.disk, last.id) == Some(last);
      OneAttemptCounts(codec, backoff, before, last, attempts(last.id), now);
      CountsStep(r, before, Passed(codec, backoff, r, due, attempts, now), SetOf(init), last, sent, failed);
    }
  }

  lemma DueIsReady(codec: Codec, disk: map<string, Dir>, now: int)
    requires Sound(codec, disk)
    ensures SetOf(Due(codec, disk, now)) == Ready(codec, disk, now)
  {
    DueExactly(codec, disk, now);
    hide EntryOf, Due;
    forall e ensures e in Ready(codec, disk, now) <==> EntryOf(codec, disk, e.id) == Some(e) && e.nextAttempt <= now {
      ReadyExactly(codec, disk, now, e);
    }
  }

  lemma ReadyExactly(codec: Codec, disk: map<string, Dir>, now: int, e: Entry)
    requires Sound(codec, disk)
    ensures e in Ready(codec, disk, now) <==> EntryOf(codec, disk, e.id) == Some(e) && e.nextAttempt <= now
  {
    assert EntryOf(codec, disk, e.id).Some? ==> e.id in disk;
    hide EntryOf;
  }

  /**
   The books after a pass: one more sent for each ready entry that was delivered, one more
   failed and one report for each that was given up, and nothing about any other entry.
   */
  lemma PassCountsExactly(codec: Codec, backoff: Backoff, r: Relay, attempts: string -> Attempt, now: int)
    requires Faithful(codec) && Sound(codec, r.disk)
    ensures Counts(r, Passed(codec, backoff, r, Due(codec, r.disk, now), attempts, now), Ready(codec, r.disk, now),
                   (e: Entry) => attempts(e.id).Delivered?, (e: Entry) => GivenUp(backoff, e, attempts(e.id)))
  {
    hide *;
    DueIsCurrent(codec, r.disk, now);
    DueIsReady(codec, r.disk, now);
    PassedCounts(codec, backoff, r, Due(codec, r.disk, now), attempts, now);
  }

  // ---- the schedule is kept ----------------------------------------------------------------------------

  /** Ids taken on are new, and every pass comes before that time. */
  ghost predicate AllBefore(codec: Codec, backoff: Backoff, r: Relay, turns: seq<Turn>, id: string, time: int) {
    turns == [] ||
    var init := turns[..|turns| - 1];
    && AllBefore(codec, backoff, r, init, id, time)
    && match turns[|turns| - 1]
       case Take(s) => s.Deferred? ==> s.entry.id !in Turned(codec, backoff, r, init).disk && s.entry.id != id
       case Pass(_, now) => now < time
  }

  /** Until its time comes an entry stays as it is, whatever is queued and tried meanwhile. */
  lemma {:induction false} WaitsItsTime(codec: Codec, backoff: Backoff, r: Relay, turns: seq<Turn>, e: Entry)
    requires Faithful(codec) && Sound(codec, r.disk) && EntryOf(codec, r.disk, e.id) == Some(e)
    requires AllBefore(codec, backoff, r, turns, e.id, e.nextAttempt)
    ensures var disk' := Turned(codec, backoff, r, turns).disk;
            Sound(codec, disk') && EntryOf(codec, disk', e.id) == Some(e)
  {
    if turns != [] {
      var init := turns[..|turns| - 1];
      WaitsItsTime(codec, backoff, r, init, e);
      var before := Turned(codec, backoff, r, init);
      hide EntryOf, Sound, Faithful, Passed, Submitted;
      match turns[|turns| - 1] {
        case Take(s) =>
          TakenOnIsSound(codec, before, s);
          SubmitLeavesOthers(codec, before, s, e.id);
        case Pass(attempts, now) =>
          PassTries(codec, backoff, before, attempts, now, e.id);
      }
    }
  }

  /** A deferred entry is tried by no pass before its failure time plus the wait. */
  lemma DeferredWaits(codec: Codec, backoff: Backoff, r: Relay, attempts: string -> Attempt, now: int, turns: seq<Turn>, e: Entry)
    requires Faithful(codec) && Sound(codec, r.disk) && EntryOf(codec, r.disk, e.id) == Some(e) && e.nextAttempt <= now
    requires attempts(e.id).Temporary? && backoff(e.attempts + 1).Some?
    requires var middle := Passed(codec, backoff, r, Due(codec, r.disk, now), attempts, now);
             AllBefore(codec, backoff, middle, turns, e.id, now + backoff(e.attempts + 1).value)
    ensures var middle := Passed(codec, backoff, r, Due(codec, r.disk, now), attempts, now);
            var later := e.(attempts := e.attempts + 1, lastError := attempts(e.id).error,
                            nextAttempt := now + backoff(e.attempts + 1).value);
            EntryOf(codec, Turned(codec, backoff, middle, turns).disk, e.id) == Some(later)
  {
    hide *;
    var middle := Passed(codec, backoff, r, Due(codec, r.disk, now), attempts, now);
    var later := e.(attempts := e.attempts + 1, lastError := attempts(e.id).error,
                    nextAttempt := now + backoff(e.attempts + 1).value);
    PassTries(codec, backoff, r, attempts, now, e.id);
    DeferredNow(codec, backoff, r, attempts(e.id), now, e, middle);
    WaitsItsTime(codec, backoff, middle, turns, later);
  }

  /** An attempt that failed for now leaves the entry deferred, with the new time. */
  lemma DeferredNow(codec: Codec, backoff: Backoff, r: Relay, attempt: Attempt, now: int, e: Entry, middle: Relay)
    requires attempt.Temporary? && backoff(e.attempts + 1).Some?
    requires Tried(backoff, e, attempt, now, EntryOf(codec, middle.disk, e.id))
    ensures EntryOf(codec, middle.disk, e.id)
         == Some(e.(attempts := e.attempts + 1, lastError := attempt.error,
                    nextAttempt := now + backoff(e.attempts + 1).value))
  {
    hide EntryOf;
  }

  /** Metadata without its message: there is nothing to send, so it goes, and nothing is counted or reported. */
  lemma LostBytesAreDropped(codec: Codec, backoff: Backoff, r: Relay, entry: Entry, attempt: Attempt, now: int)
    requires Found(r.disk, entry.id).None? || Found(r.disk, entry.id).value.eml.None?
    ensures var after := Retried(codec, backoff, r, entry, attempt, now);
            && EntryOf(codec, after.disk, entry.id) == None
            && after.sent == r.sent && after.failed == r.failed && after.reported == r.reported
            && forall id :: id != entry.id ==> EntryOf(codec, after.disk, id) == EntryOf(codec, r.disk, id)
  {
  }

  lemma TakenOnIsSound(codec: Codec, r: Relay, s: Submission)
    requires Faithful(codec) && Sound(codec, r.disk) && (s.Deferred? ==> s.entry.id !in r.disk)
    ensures Sound(codec, Submitted(codec, r, s).disk)
  {
    if s.Deferred? {
      EnqueuedIs(codec, r.disk, s.entry, s.raw);
      WaitingWith(codec, r.disk, s.entry, s.raw);
    }
    hide Sound, Faithful, Enqueued;
  }

  /** An entry still waiting has been through every pass, and the schedule let it. */
  ghost predicate Survived(backoff: Backoff, passes: nat, e: Option<Entry>) {
    e.Some? ==> e.value.attempts >= passes && (passes > 0 ==> backoff(e.value.attempts).Some?)
  }

  lemma {:induction false} SurvivesPasses(codec: Codec, backoff: Backoff, r: Relay, turns: seq<Turn>, id: string)
    requires Faithful(codec) && Sound(codec, r.disk) && OnTime(codec, backoff, r, turns, id)
    ensures var disk' := Turned(codec, backoff, r, turns).disk;
            Sound(codec, disk') && Survived(backoff, Passes(turns), EntryOf(codec, disk', id))
  {
    if turns != [] {
      var init := turns[..|turns| - 1];
      SurvivesPasses(codec, backoff, r, init, id);
      var before := Turned(codec, backoff, r, init);
      hide EntryOf, Sound, Faithful, Passed, Submitted;
      match turns[|turns| - 1] {
        case Take(s) =>
          TakenOnIsSound(codec, before, s);
          SubmitLeavesOthers(codec, before, s, id);
        case Pass(attempts, now) =>
          PassTries(codec, backoff, before, attempts, now, id);
      }
    }
  }

  lemma SubmitLeavesOthers(codec: Codec, r: Relay, s: Submission, id: string)
    requires s.Deferred? ==> s.entry.id != id
    ensures EntryOf(codec, Submitted(codec, r, s).disk, id) == EntryOf(codec, r.disk, id)
  {
    hide EntryOf, Enqueued;
    if s.Deferred? {
      EnqueueLeavesOthers(codec, r.disk, s.entry, s.raw, id);
    }
  }

  /**
   A schedule that stops somewhere empties the queue: after one pass more than that, each
   when the entry is due, it is gone, however its attempts ended and whatever was queued meanwhile.
   */
  lemma PassesEmptyTheQueue(codec: Codec, backoff: Backoff, r: Relay, turns: seq<Turn>, id: string, stop: nat)
    requires Faithful(codec) && Sound(codec, r.disk) && OnTime(codec, backoff, r, turns, id)
    requires Passes(turns) > stop && forall n :: n >= stop ==> backoff(n) == None
    ensures id !in Waiting(codec, Turned(codec, backoff, r, turns).disk)
  {
    SurvivesPasses(codec, backoff, r, turns, id);
    hide Turned, Sound, Faithful, OnTime, Passes, EntryOf;
  }
}
