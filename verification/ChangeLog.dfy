/**
 The change log behind every `changes` and `queryChanges` answer (section 5.2 of
 RFC 8620): one record per state, folded from the client's state to the current one.
 */
module ChangeLog {
  import opened Wrappers

  type Id = string

  /** What happened at one state.  Mailboxes use the same shape under other names. */
  datatype Record = Record(added: seq<Id>, updated: seq<Id>, removed: seq<Id>)

  type Log = map<int, Record>

  datatype MethodError = CannotCalculateChanges

  datatype ChangeSets = ChangeSets(created: set<Id>, updated: set<Id>, destroyed: set<Id>)

  const NOTHING := ChangeSets({}, {}, {})

  function Elems(s: seq<Id>): set<Id> {
    set x | x in s
  }

  // ---- the fold ---------------------------------------------------------------------

  function FoldOne(acc: ChangeSets, r: Record): ChangeSets {
    var created := acc.created + Elems(r.added);
    var updated := acc.updated + (Elems(r.updated) - created);
    var removed := Elems(r.removed);
    ChangeSets(created - removed, updated - removed, (acc.destroyed - Elems(r.added)) + removed)
  }

  function Fold(log: Log, since: int, cur: int): Result<ChangeSets, MethodError>
    decreases cur - since
  {
    if cur <= since then Ok(NOTHING)
    else match Fold(log, since, cur - 1)
      case Err(e) => Err(e)
      case Ok(acc) => if cur in log then Ok(FoldOne(acc, log[cur])) else Err(CannotCalculateChanges)
  }

  /** A missing record anywhere in the window fails the whole fold. */
  lemma {:induction false} FoldFails(log: Log, since: int, v: int, cur: int)
    requires since < v <= cur && v !in log
    ensures Fold(log, since, cur) == Err(CannotCalculateChanges)
    decreases cur - v
  {
    if v < cur {
      FoldFails(log, since, v, cur - 1);
    } else if Fold(log, since, cur - 1).Err? {
      assert Fold(log, since, cur - 1).error.CannotCalculateChanges?;
    }
  }

  method FoldChanges(log: Log, since: int, cur: int) returns (r: Result<ChangeSets, MethodError>)
    ensures r == Fold(log, since, cur)
  {
    hide FoldOne, Elems;
    var sets := NOTHING;
    var v := since + 1;
    while v <= cur
      invariant since < v && if since <= cur then v <= cur + 1 else v == since + 1
      invariant Fold(log, since, v - 1) == Ok(sets)
    {
      if v !in log {
        FoldFails(log, since, v, cur);
        return Err(CannotCalculateChanges);
      }
      sets := FoldRecord(sets, log[v]);
      v := v + 1;
    }
    r := Ok(sets);
  }

  /** The three inner loops, over one record. */
  method FoldRecord(acc: ChangeSets, rec: Record) returns (r: ChangeSets)
    ensures r == FoldOne(acc, rec)
  {
    hide Elems;
    var ChangeSets(created, updated, destroyed) := acc;
    assert rec.added[..0] == [] && rec.updated[..0] == [] && rec.removed[..0] == [];
    NoElems();
    for i := 0 to |rec.added|
      invariant created == acc.created + Elems(rec.added[..i]) && destroyed == acc.destroyed - Elems(rec.added[..i])
    {
      ElemsSnoc(rec.added, i);
      created := created + {rec.added[i]};
      destroyed := destroyed - {rec.added[i]};
    }
    for i := 0 to |rec.updated|
      invariant updated == acc.updated + (Elems(rec.updated[..i]) - created)
    {
      ElemsSnoc(rec.updated, i);
      if rec.updated[i] !in created {
        updated := updated + {rec.updated[i]};
      }
    }
    ghost var before := ChangeSets(created, updated, destroyed);
    for i := 0 to |rec.removed|
      invariant destroyed == before.destroyed + Elems(rec.removed[..i])
      invariant created == before.created - Elems(rec.removed[..i])
      invariant updated == before.updated - Elems(rec.removed[..i])
    {
      ElemsSnoc(rec.removed, i);
      destroyed := destroyed + {rec.removed[i]};
      created := created - {rec.removed[i]};
      updated := updated - {rec.removed[i]};
    }
    WholeElems(rec);
    r := ChangeSets(created, updated, destroyed);
  }

  lemma NoElems()
    ensures Elems([]) == {}
  {
  }

  lemma ElemsSnoc(s: seq<Id>, i: nat)
    requires i < |s|
    ensures Elems(s[..i + 1]) == Elems(s[..i]) + {s[i]}
  {
    assert s[..i + 1] == s[..i] + [s[i]];
  }

  lemma WholeElems(r: Record)
    ensures r.added[..|r.added|] == r.added && r.updated[..|r.updated|] == r.updated
    ensures r.removed[..|r.removed|] == r.removed
  {
  }

  /** What `changes` answers: a state that is negative or still to come is refused. */
  function Answer(log: Log, since: int, cur: int): Result<ChangeSets, MethodError> {
    if since < 0 || since > cur then Err(CannotCalculateChanges) else Fold(log, since, cur)
  }

  method Changes(log: Log, since: int, cur: int) returns (r: Result<ChangeSets, MethodError>)
    ensures r == Answer(log, since, cur)
  {
    if since < 0 || since > cur {
      return Err(CannotCalculateChanges);
    }
    r := FoldChanges(log, since, cur);
  }

  /** The `queryChanges` method: added and removed ids only. */
  method QueryChanges(log: Log, since: int, cur: int) returns (r: Result<(set<Id>, set<Id>), MethodError>)
    ensures r == match Answer(log, since, cur)
                 case Err(e) => Err(e)
                 case Ok(cs) => Ok((cs.created, cs.destroyed))
  {
    if since < 0 || since > cur {
      return Err(CannotCalculateChanges);
    }
    var added, removed: set<Id> := {}, {};
    for v := since + 1 to cur + 1
      invariant Fold(log, since, v - 1).Ok?
      invariant Fold(log, since, v - 1).value.created == added && Fold(log, since, v - 1).value.destroyed == removed
    {
      if v !in log {
        FoldFails(log, since, v, cur);
        return Err(CannotCalculateChanges);
      }
      var rec := log[v];
      ghost var added0, removed0 := added, removed;
      for i := 0 to |rec.added|
        invariant added == added0 + Elems(rec.added[..i]) && removed == removed0 - Elems(rec.added[..i])
      {
        ElemsSnoc(rec.added, i);
        added := added + {rec.added[i]};
        removed := removed - {rec.added[i]};
      }
      ghost var added1, removed1 := added, removed;
      for i := 0 to |rec.removed|
        invariant removed == removed1 + Elems(rec.removed[..i]) && added == added1 - Elems(rec.removed[..i])
      {
        ElemsSnoc(rec.removed, i);
        removed := removed + {rec.removed[i]};
        added := added - {rec.removed[i]};
      }
      WholeElems(rec);
    }
    r := Ok((added, removed));
  }

  // ---- what a log says ----------------------------------------------------------------

  /** The id set a log describes at a state, from the empty store on. */
  ghost function IdsAt(log: Log, v: int): set<Id>
    decreases v
  {
    if v <= 0 || v !in log then {}
    else IdsAt(log, v - 1) + Elems(log[v].added) - Elems(log[v].removed)
  }

  ghost predicate Contiguous(log: Log, n: int) {
    forall v :: 0 < v <= n <==> v in log
  }

  /** Added ids are new, updated and removed ones are there; one kind to a record. */
  ghost predicate Fits(ids: set<Id>, r: Record) {
    && Elems(r.added) !! ids && Elems(r.updated) <= ids && Elems(r.removed) <= ids
    && (r.added == [] || r.removed == []) && (r.updated == [] || (r.added == [] && r.removed == []))
  }

  ghost predicate ValidLog(log: Log, n: int) {
    Contiguous(log, n) && forall v :: 0 < v <= n ==> Fits(IdsAt(log, v - 1), log[v])
  }

  ghost predicate Touched(log: Log, a: int, b: int, id: Id) {
    exists v :: a < v <= b && v in log && (id in log[v].added || id in log[v].removed)
  }

  ghost predicate Patched(log: Log, a: int, b: int, id: Id) {
    exists v :: a < v <= b && v in log && id in log[v].updated
  }

  lemma TouchedStep(log: Log, a: int, b: int, id: Id)
    requires a < b && b in log
    ensures Touched(log, a, b, id) <==> Touched(log, a, b - 1, id) || id in log[b].added || id in log[b].removed
    ensures Patched(log, a, b, id) <==> Patched(log, a, b - 1, id) || id in log[b].updated
  {
    if Touched(log, a, b, id) {
      var v :| a < v <= b && v in log && (id in log[v].added || id in log[v].removed);
      assert v == b || v <= b - 1;
    }
  }

  lemma TouchedSplit(log: Log, a: int, b: int, c: int, id: Id)
    requires a <= b <= c
    ensures Touched(log, a, c, id) <==> Touched(log, a, b, id) || Touched(log, b, c, id)
    ensures Patched(log, a, c, id) <==> Patched(log, a, b, id) || Patched(log, b, c, id)
  {
    if Touched(log, a, c, id) {
      var v :| a < v <= c && v in log && (id in log[v].added || id in log[v].removed);
      assert v <= b || b < v;
    }
    if Patched(log, a, c, id) {
      var v :| a < v <= c && v in log && id in log[v].updated;
      assert v <= b || b < v;
    }
  }

  // ---- soundness ------------------------------------------------------------------------

  /** A client is answered exactly when its state is one the store has been in. */
  lemma AnswerSucceeds(log: Log, n: int, since: int)
    requires Contiguous(log, n)
    ensures Answer(log, since, n).Ok? <==> 0 <= since <= n
  {
    if 0 <= since <= n {
      FoldInside(log, n, since, n);
    }
  }

  lemma {:induction false} FoldInside(log: Log, n: int, since: int, cur: int)
    requires Contiguous(log, n) && since <= cur <= n && (0 <= since || since == cur)
    ensures Fold(log, since, cur).Ok?
    decreases cur - since
  {
    if since < cur {
      FoldInside(log, n, since, cur - 1);
    }
  }

  /** Any log at all: the answer carries the old id set to the new one. */
  lemma {:induction false} FoldReplays(log: Log, n: int, since: int, cur: int)
    requires Contiguous(log, n) && 0 <= since <= cur <= n
    ensures Fold(log, since, cur).Ok?
    ensures var cs := Fold(log, since, cur).value;
            && IdsAt(log, cur) == (IdsAt(log, since) - cs.destroyed) + cs.created
            && cs.created !! cs.destroyed
            && TouchedIn(log, since, cur, cs)
    decreases cur - since
  {
    if since < cur {
      FoldReplays(log, n, since, cur - 1);
      forall id ensures
        var cs := Fold(log, since, cur).value;
        id in cs.created || id in cs.destroyed <==> Touched(log, since, cur, id)
      {
        TouchedStep(log, since, cur, id);
      }
    }
  }

  /** One record, on a well-formed log. */
  lemma UpdatedStep(acc: ChangeSets, r: Record, before: set<Id>, ids: set<Id>)
    requires ids == (before - acc.destroyed) + acc.created && Fits(ids, r) && acc.updated <= ids
    requires acc.updated !! acc.created
    ensures var cs := FoldOne(acc, r);
            && cs.updated <= ids + Elems(r.added) - Elems(r.removed)
            && (forall id :: id in cs.updated <==>
                && (id in acc.updated || (id in r.updated && id !in acc.created && id !in acc.destroyed))
                && id !in r.added && id !in r.removed)
  {
    forall id | id in r.updated && id !in acc.created ensures id !in acc.destroyed {
      assert id in Elems(r.updated);
    }
    forall id | id in acc.updated ensures id !in r.added {
      assert id in r.added ==> id in Elems(r.added);
    }
    if r.updated != [] {
      assert FoldOne(acc, r).created == acc.created;
    }
  }

  /** The updated ids are those patched in the window and neither added nor removed in it. */
  ghost predicate UpdatedIn(log: Log, since: int, cur: int, updated: set<Id>) {
    forall id :: id in updated <==> Patched(log, since, cur, id) && !Touched(log, since, cur, id)
  }

  ghost predicate TouchedIn(log: Log, since: int, cur: int, cs: ChangeSets) {
    forall id :: id in cs.created || id in cs.destroyed <==> Touched(log, since, cur, id)
  }

  lemma UpdatedInStep(log: Log, since: int, cur: int, acc: ChangeSets, before: set<Id>, ids: set<Id>)
    requires since < cur && cur in log && Fits(ids, log[cur])
    requires ids == (before - acc.destroyed) + acc.created && acc.updated <= ids && acc.updated !! acc.created
    requires UpdatedIn(log, since, cur - 1, acc.updated) && TouchedIn(log, since, cur - 1, acc)
    ensures UpdatedIn(log, since, cur, FoldOne(acc, log[cur]).updated)
    ensures FoldOne(acc, log[cur]).updated <= ids + Elems(log[cur].added) - Elems(log[cur].removed)
  {
    hide Touched, Patched, FoldOne, Fits;
    UpdatedStep(acc, log[cur], before, ids);
    hide Elems;
    forall id ensures id in FoldOne(acc, log[cur]).updated
                 <==> Patched(log, since, cur, id) && !Touched(log, since, cur, id)
    {
      TouchedStep(log, since, cur, id);
    }
  }

  lemma DisjointWindow(log: Log, since: int, cur: int, cs: ChangeSets, before: set<Id>, after: set<Id>)
    requires UpdatedIn(log, since, cur, cs.updated) && TouchedIn(log, since, cur, cs)
    requires after == (before - cs.destroyed) + cs.created && cs.updated <= after
    ensures cs.updated <= before && cs.updated !! cs.created && cs.updated !! cs.destroyed
  {
    hide Touched, Patched;
  }

  ghost predicate Sound(log: Log, since: int, cur: int) {
    Fold(log, since, cur).Ok?
    && var cs := Fold(log, since, cur).value;
    && UpdatedIn(log, since, cur, cs.updated)
    && cs.updated <= IdsAt(log, since) && cs.updated <= IdsAt(log, cur)
    && cs.updated !! cs.created && cs.updated !! cs.destroyed
  }

  lemma EmptyWindow(log: Log, n: int, v: int)
    requires Contiguous(log, n) && 0 <= v <= n
    ensures Sound(log, v, v)
  {
  }

  lemma NextWindow(log: Log, n: int, since: int, cur: int)
    requires ValidLog(log, n) && 0 <= since < cur <= n && Sound(log, since, cur - 1)
    ensures Sound(log, since, cur)
  {
    hide Touched, Patched, Fits, FoldOne, Elems, UpdatedIn, TouchedIn;
    FoldReplays(log, n, since, cur);
    FoldReplays(log, n, since, cur - 1);
    UpdatedInStep(log, since, cur, Fold(log, since, cur - 1).value, IdsAt(log, since), IdsAt(log, cur - 1));
    DisjointWindow(log, since, cur, Fold(log, since, cur).value, IdsAt(log, since), IdsAt(log, cur));
  }

  /** A well-formed log: the three sets are disjoint, and the updated one is in both snapshots. */
  lemma {:induction false} UpdatedExactly(log: Log, n: int, since: int, cur: int)
    requires ValidLog(log, n) && 0 <= since <= cur <= n
    ensures Sound(log, since, cur)
    decreases cur - since
  {
    if since < cur {
      UpdatedExactly(log, n, since, cur - 1);
      NextWindow(log, n, since, cur);
    } else {
      EmptyWindow(log, n, cur);
    }
  }

  // ---- the three sets, on any log at all ---------------------------------------------------

  /** No record from v on, v's own included, removes the id. */
  ghost predicate Stays(log: Log, v: int, cur: int, id: Id) {
    forall x :: v <= x <= cur && x in log ==> id !in log[x].removed
  }

  ghost predicate CreatedAt(log: Log, since: int, v: int, cur: int, id: Id) {
    since < v <= cur && v in log && id in log[v].added && Stays(log, v, cur, id)
  }

  /** Added in the window, and not removed after that. */
  ghost predicate CreatedIn(log: Log, since: int, cur: int, id: Id) {
    exists v :: CreatedAt(log, since, v, cur, id)
  }

  ghost predicate ChangedAt(log: Log, since: int, v: int, cur: int, id: Id) {
    since < v <= cur && v in log && id in log[v].updated && Stays(log, v, cur, id) && !CreatedIn(log, since, v, id)
  }

  /** Updated in the window when it was not created there, and not removed after that. */
  ghost predicate ChangedIn(log: Log, since: int, cur: int, id: Id) {
    exists v :: ChangedAt(log, since, v, cur, id)
  }

  ghost predicate DestroyedAt(log: Log, since: int, v: int, cur: int, id: Id) {
    since < v <= cur && v in log && id in log[v].removed && forall x :: v < x <= cur && x in log ==> id !in log[x].added
  }

  /** Removed in the window, and not added after that. */
  ghost predicate DestroyedIn(log: Log, since: int, cur: int, id: Id) {
    exists v :: DestroyedAt(log, since, v, cur, id)
  }

  lemma StaysStep(log: Log, v: int, cur: int, id: Id)
    requires v <= cur && cur in log
    ensures Stays(log, v, cur, id) <==> Stays(log, v, cur - 1, id) && id !in log[cur].removed
  {
  }

  lemma CreatedStep(log: Log, since: int, cur: int, id: Id)
    requires since < cur && cur in log
    ensures CreatedIn(log, since, cur, id) <==>
              id !in log[cur].removed && (id in log[cur].added || CreatedIn(log, since, cur - 1, id))
  {
    if CreatedIn(log, since, cur, id) {
      var v :| CreatedAt(log, since, v, cur, id);
      assert v < cur ==> CreatedAt(log, since, v, cur - 1, id);
    }
    if id !in log[cur].removed && id in log[cur].added {
      assert CreatedAt(log, since, cur, cur, id);
    }
    if id !in log[cur].removed && CreatedIn(log, since, cur - 1, id) {
      var v :| CreatedAt(log, since, v, cur - 1, id);
      StaysStep(log, v, cur, id);
      assert CreatedAt(log, since, v, cur, id);
    }
  }

  lemma ChangedStep(log: Log, since: int, cur: int, id: Id)
    requires since < cur && cur in log
    ensures ChangedIn(log, since, cur, id) <==>
              && id !in log[cur].removed
              && (ChangedIn(log, since, cur - 1, id) || (id in log[cur].updated && !CreatedIn(log, since, cur, id)))
  {
    hide CreatedIn;
    if ChangedIn(log, since, cur, id) {
      var v :| ChangedAt(log, since, v, cur, id);
      assert v < cur ==> ChangedAt(log, since, v, cur - 1, id);
    }
    if id !in log[cur].removed && id in log[cur].updated && !CreatedIn(log, since, cur, id) {
      assert ChangedAt(log, since, cur, cur, id);
    }
    if id !in log[cur].removed && ChangedIn(log, since, cur - 1, id) {
      var v :| ChangedAt(log, since, v, cur - 1, id);
      StaysStep(log, v, cur, id);
      assert ChangedAt(log, since, v, cur, id);
    }
  }

  lemma DestroyedStep(log: Log, since: int, cur: int, id: Id)
    requires since < cur && cur in log
    ensures DestroyedIn(log, since, cur, id) <==>
              id in log[cur].removed || (DestroyedIn(log, since, cur - 1, id) && id !in log[cur].added)
  {
    if DestroyedIn(log, since, cur, id) {
      var v :| DestroyedAt(log, since, v, cur, id);
      assert v < cur ==> DestroyedAt(log, since, v, cur - 1, id);
    }
    if id in log[cur].removed {
      assert DestroyedAt(log, since, cur, cur, id);
    }
    if DestroyedIn(log, since, cur - 1, id) && id !in log[cur].added {
      var v :| DestroyedAt(log, since, v, cur - 1, id);
      assert DestroyedAt(log, since, v, cur, id);
    }
  }

  /** What the fold answers for an id, read off the records. */
  lemma {:induction false} FoldExactly(log: Log, n: int, since: int, cur: int, id: Id)
    requires Contiguous(log, n) && 0 <= since <= cur <= n
    ensures Fold(log, since, cur).Ok?
    ensures var cs := Fold(log, since, cur).value;
            && (id in cs.created <==> CreatedIn(log, since, cur, id))
            && (id in cs.updated <==> ChangedIn(log, since, cur, id))
            && (id in cs.destroyed <==> DestroyedIn(log, since, cur, id))
    decreases cur - since
  {
    if since < cur {
      FoldExactly(log, n, since, cur - 1, id);
      CreatedStep(log, since, cur, id);
      ChangedStep(log, since, cur, id);
      DestroyedStep(log, since, cur, id);
      hide CreatedIn, ChangedIn, DestroyedIn;
    }
  }

  /** A record adds the id after one updated it, not created in the window by then and not removed since. */
  ghost predicate AddedAgain(log: Log, since: int, v: int, x: int, cur: int, id: Id) {
    ChangedAt(log, since, v, cur, id) && v < x <= cur && x in log && id in log[x].added
  }

  lemma CreatedByThen(log: Log, since: int, x: int, v: int, cur: int, id: Id)
    requires CreatedAt(log, since, x, cur, id) && x <= v <= cur
    ensures CreatedIn(log, since, v, id)
  {
    assert CreatedAt(log, since, x, v, id);
  }

  /** When an id is reported both as created and as updated, on any log. */
  lemma OverlapExactly(log: Log, n: int, since: int, cur: int, id: Id)
    requires Contiguous(log, n) && 0 <= since <= cur <= n
    ensures Fold(log, since, cur).Ok?
    ensures id in Fold(log, since, cur).value.created && id in Fold(log, since, cur).value.updated
       <==> exists v, x :: AddedAgain(log, since, v, x, cur, id)
  {
    FoldExactly(log, n, since, cur, id);
    hide Fold;
    if CreatedIn(log, since, cur, id) && ChangedIn(log, since, cur, id) {
      var v :| ChangedAt(log, since, v, cur, id);
      var x :| CreatedAt(log, since, x, cur, id);
      if x <= v {
        CreatedByThen(log, since, x, v, cur, id);
      }
      assert AddedAgain(log, since, v, x, cur, id);
    }
    if v, x :| AddedAgain(log, since, v, x, cur, id) {
      assert CreatedAt(log, since, x, cur, id);
    }
  }

  /** Every record updates only ids that are there, or that it adds itself. */
  ghost predicate Grounded(log: Log, n: int) {
    Contiguous(log, n) && forall v :: 0 < v <= n ==> Elems(log[v].updated) <= IdsAt(log, v - 1) + Elems(log[v].added)
  }

  lemma {:induction false} StaysThere(log: Log, n: int, v: int, cur: int, id: Id)
    requires Contiguous(log, n) && 0 < v <= cur <= n && id in IdsAt(log, v - 1) && Stays(log, v, cur, id)
    ensures id in IdsAt(log, cur)
    decreases cur
  {
    if v < cur {
      StaysThere(log, n, v, cur - 1, id);
    }
  }

  lemma NotCreatedYet(log: Log, since: int, v: int, cur: int, id: Id)
    requires ChangedAt(log, since, v, cur, id)
    ensures id !in log[v].added && !CreatedIn(log, since, v - 1, id)
  {
    CreatedStep(log, since, v, id);
    hide CreatedIn;
  }

  /** An id is updated when it is there, and it is there from before the window on. */
  lemma ChangedWasThere(log: Log, n: int, since: int, v: int, cur: int, id: Id)
    requires Grounded(log, n) && 0 <= since <= cur <= n && ChangedAt(log, since, v, cur, id)
    ensures id in IdsAt(log, v - 1) && id in IdsAt(log, since)
  {
    hide CreatedIn, DestroyedIn, ChangedIn, Fold, IdsAt, TouchedIn, Stays;
    NotCreatedYet(log, since, v, cur, id);
    assert id in Elems(log[v].updated) && Elems(log[v].updated) <= IdsAt(log, v - 1) + Elems(log[v].added);
    FoldExactly(log, n, since, v - 1, id);
    FoldReplays(log, n, since, v - 1);
  }

  /** And it stays there. */
  lemma ChangedIsThere(log: Log, n: int, since: int, v: int, cur: int, id: Id)
    requires Grounded(log, n) && 0 <= since <= cur <= n && ChangedAt(log, since, v, cur, id)
    ensures forall x :: v <= x <= cur ==> id in IdsAt(log, x)
  {
    hide CreatedIn;
    ChangedWasThere(log, n, since, v, cur, id);
    forall x | v <= x <= cur ensures id in IdsAt(log, x) {
      StaysThere(log, n, v, x, id);
    }
  }

  lemma ChangedIsNotDestroyed(log: Log, n: int, since: int, v: int, cur: int, id: Id)
    requires Grounded(log, n) && 0 <= since <= cur <= n && ChangedAt(log, since, v, cur, id)
    ensures !DestroyedIn(log, since, cur, id)
  {
    hide CreatedIn, Fold, IdsAt, TouchedIn;
    ChangedWasThere(log, n, since, v, cur, id);
    FoldExactly(log, n, since, v - 1, id);
    FoldReplays(log, n, since, v - 1);
    if DestroyedIn(log, since, cur, id) {
      var w :| DestroyedAt(log, since, w, cur, id);
      DestroyedByThen(log, since, w, v, cur, id);
    }
  }

  lemma DestroyedByThen(log: Log, since: int, w: int, v: int, cur: int, id: Id)
    requires DestroyedAt(log, since, w, cur, id) && ChangedAt(log, since, v, cur, id)
    ensures DestroyedIn(log, since, v - 1, id)
  {
    assert w < v;
    assert DestroyedAt(log, since, w, v - 1, id);
  }

  /** On a grounded log the updated ids are in both snapshots, and none of them is destroyed. */
  lemma UpdatedIsThere(log: Log, n: int, since: int, cur: int, id: Id)
    requires Grounded(log, n) && 0 <= since <= cur <= n && ChangedIn(log, since, cur, id)
    ensures id in IdsAt(log, since) && id in IdsAt(log, cur) && !DestroyedIn(log, since, cur, id)
  {
    var v :| ChangedAt(log, since, v, cur, id);
    hide ChangedIn, DestroyedIn, IdsAt, Grounded;
    ChangedWasThere(log, n, since, v, cur, id);
    ChangedIsThere(log, n, since, v, cur, id);
    ChangedIsNotDestroyed(log, n, since, v, cur, id);
  }

  /** Every record adds only ids that are not there. */
  ghost predicate AddsNew(log: Log, since: int, cur: int) {
    forall v :: since < v <= cur && v in log ==> Elems(log[v].added) !! IdsAt(log, v - 1)
  }

  /** Where no record adds an id that is there, nothing is both created and updated. */
  lemma NewIdsDoNotOverlap(log: Log, n: int, since: int, cur: int, id: Id)
    requires Grounded(log, n) && 0 <= since <= cur <= n && AddsNew(log, since, cur)
    ensures !(exists v, x :: AddedAgain(log, since, v, x, cur, id))
  {
    if v, x :| AddedAgain(log, since, v, x, cur, id) {
      ChangedIsThere(log, n, since, v, cur, id);
    }
  }

  // ---- composition -------------------------------------------------------------------------

  function Combine(first: ChangeSets, second: ChangeSets): ChangeSets {
    ChangeSets((first.created - second.destroyed) + second.created,
               (first.updated - (second.destroyed + second.created)) + (second.updated - first.created),
               (first.destroyed - second.created) + second.destroyed)
  }

  lemma CombineStep(first: ChangeSets, second: ChangeSets, whole: ChangeSets, r: Record)
    requires whole.created == Combine(first, second).created && whole.destroyed == Combine(first, second).destroyed
    ensures FoldOne(whole, r).created == Combine(first, FoldOne(second, r)).created
    ensures FoldOne(whole, r).destroyed == Combine(first, FoldOne(second, r)).destroyed
  {
    hide Elems;
  }

  lemma {:induction false} CreatedCompose(log: Log, n: int, a: int, b: int, c: int)
    requires Contiguous(log, n) && 0 <= a <= b <= c <= n
    ensures Fold(log, a, b).Ok? && Fold(log, b, c).Ok? && Fold(log, a, c).Ok?
    ensures var whole, both := Fold(log, a, c).value, Combine(Fold(log, a, b).value, Fold(log, b, c).value);
            whole.created == both.created && whole.destroyed == both.destroyed
    decreases c - b
  {
    FoldInside(log, n, a, b);
    FoldInside(log, n, b, c);
    FoldInside(log, n, a, c);
    if b < c {
      CreatedCompose(log, n, a, b, c - 1);
      hide FoldOne, Combine, Contiguous;
      CombineStep(Fold(log, a, b).value, Fold(log, b, c - 1).value, Fold(log, a, c - 1).value, log[c]);
    }
  }

  /** The facts about one window, for one id. */
  lemma WindowAt(log: Log, n: int, a: int, b: int, id: Id)
    requires ValidLog(log, n) && 0 <= a <= b <= n
    ensures Fold(log, a, b).Ok?
    ensures var cs := Fold(log, a, b).value;
            && (id in cs.updated <==> Patched(log, a, b, id) && !Touched(log, a, b, id))
            && (id in cs.created || id in cs.destroyed <==> Touched(log, a, b, id))
            && (id in cs.updated ==> id in IdsAt(log, a))
            && (id in IdsAt(log, b) <==> (id in IdsAt(log, a) && id !in cs.destroyed) || id in cs.created)
  {
    UpdatedExactly(log, n, a, b);
    FoldReplays(log, n, a, b);
  }

  lemma UpdatedCompose(log: Log, n: int, a: int, b: int, c: int, id: Id)
    requires ValidLog(log, n) && 0 <= a <= b <= c <= n
    requires Fold(log, a, b).Ok? && Fold(log, b, c).Ok? && Fold(log, a, c).Ok?
    ensures id in Fold(log, a, c).value.updated
       <==> id in Combine(Fold(log, a, b).value, Fold(log, b, c).value).updated
  {
    hide Fold, IdsAt, Touched, Patched, ValidLog;
    WindowAt(log, n, a, b, id);
    WindowAt(log, n, b, c, id);
    WindowAt(log, n, a, c, id);
    TouchedSplit(log, a, b, c, id);
  }

  /** Catching up twice is catching up once. */
  lemma FoldComposes(log: Log, n: int, a: int, b: int, c: int)
    requires ValidLog(log, n) && 0 <= a <= b <= c <= n
    ensures Fold(log, a, b).Ok? && Fold(log, b, c).Ok?
    ensures Fold(log, a, c) == Ok(Combine(Fold(log, a, b).value, Fold(log, b, c).value))
  {
    CreatedCompose(log, n, a, b, c);
    hide *;
    var both, whole := Combine(Fold(log, a, b).value, Fold(log, b, c).value), Fold(log, a, c).value;
    forall id: Id ensures id in whole.updated <==> id in both.updated {
      UpdatedCompose(log, n, a, b, c, id);
    }
    assert whole.updated == both.updated;
  }
}
