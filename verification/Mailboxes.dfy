/**
 The mailbox list: reconciling it with the relay's view, and `Mailbox/set`.  Each
 change comes with the record that goes into the mailbox change log.
 */
module Mailboxes {
  import opened Wrappers
  import opened ChangeLog
  import opened Ordering

  datatype Mailbox = Mailbox(id: Id, name: string, role: string)

  function IdsOf(mbs: seq<Mailbox>): (r: set<Id>)
    ensures forall id :: id in r <==> exists i :: 0 <= i < |mbs| && mbs[i].id == id
  {
    set i | 0 <= i < |mbs| :: mbs[i].id
  }

  const UNCHANGED := Record([], [], [])

  // ---- sync ------------------------------------------------------------------------------

  /** The record of replacing one list by another; None when the id sets agree. */
  function SyncRecord(existing: seq<Mailbox>, incoming: seq<Mailbox>): Option<Record> {
    var created := Sorted(IdsOf(incoming) - IdsOf(existing));
    var destroyed := Sorted(IdsOf(existing) - IdsOf(incoming));
    if created == [] && destroyed == [] then None else Some(Record(created, [], destroyed))
  }

  lemma SyncKeepsIds(existing: seq<Mailbox>, incoming: seq<Mailbox>)
    ensures match SyncRecord(existing, incoming)
            case None => IdsOf(incoming) == IdsOf(existing)
            case Some(rec) => IdsOf(incoming) == IdsOf(existing) + Elems(rec.added) - Elems(rec.removed)
  {
    hide IdsOf;
    var created := Sorted(IdsOf(incoming) - IdsOf(existing));
    var destroyed := Sorted(IdsOf(existing) - IdsOf(incoming));
    assert Elems(created) == IdsOf(incoming) - IdsOf(existing);
    assert Elems(destroyed) == IdsOf(existing) - IdsOf(incoming);
    assert created == [] ==> Elems(created) == {};
    assert destroyed == [] ==> Elems(destroyed) == {};
  }

  // ---- Mailbox/set ---------------------------------------------------------------------------

  datatype HookOp = Create | Destroy

  /** Whether the installed hook lets an operation through. */
  type Hook = (HookOp, Id) -> bool

  datatype SetRequest = SetRequest(
    create: seq<(string, Mailbox)>, update: seq<(Id, Option<string>)>, destroy: seq<Id>)

  /** The list being edited, and what is recorded so far. */
  datatype Draft = Draft(mbs: seq<Mailbox>, rec: Record)

  /** A mailbox that comes without an id is named after its creation key. */
  function WithId(key: string, mb: Mailbox): Mailbox {
    if mb.id == "" then mb.(id := "mbx-" + key) else mb
  }

  function CreateOne(d: Draft, key: string, mb: Mailbox, hook: Hook): Draft {
    var named := WithId(key, mb);
    if hook(Create, named.id) then Draft(d.mbs + [named], d.rec.(added := d.rec.added + [named.id])) else d
  }

  function CreateAll(d: Draft, create: seq<(string, Mailbox)>, hook: Hook): Draft {
    if create == [] then d
    else
      var last := create[|create| - 1];
      CreateOne(CreateAll(d, create[..|create| - 1], hook), last.0, last.1, hook)
  }

  function PositionOf(mbs: seq<Mailbox>, id: Id): (r: Option<nat>)
    ensures r.None? <==> id !in IdsOf(mbs)
    ensures r.Some? ==> r.value < |mbs| && mbs[r.value].id == id && forall j :: 0 <= j < r.value ==> mbs[j].id != id
  {
    if mbs == [] then None
    else if mbs[0].id == id then Some(0)
    else
      assert forall i :: 0 < i < |mbs| ==> mbs[i] == mbs[1..][i - 1];
      match PositionOf(mbs[1..], id)
      case None => None
      case Some(i) => Some(i + 1)
  }

  /** Only the name can be changed; an unknown id is not recorded. */
  function UpdateOne(d: Draft, id: Id, name: Option<string>): Draft {
    match PositionOf(d.mbs, id)
    case None => d
    case Some(i) =>
      Draft(if name.Some? then d.mbs[i := d.mbs[i].(name := name.value)] else d.mbs,
            d.rec.(updated := d.rec.updated + [id]))
  }

  function UpdateAll(d: Draft, update: seq<(Id, Option<string>)>): Draft {
    if update == [] then d
    else
      var last := update[|update| - 1];
      UpdateOne(UpdateAll(d, update[..|update| - 1]), last.0, last.1)
  }

  function DestroyOne(d: Draft, id: Id, hook: Hook): Draft {
    if id in IdsOf(d.mbs) && hook(Destroy, id) then d.(rec := d.rec.(removed := d.rec.removed + [id])) else d
  }

  function DestroyAll(d: Draft, destroy: seq<Id>, hook: Hook): Draft {
    if destroy == [] then d
    else DestroyOne(DestroyAll(d, destroy[..|destroy| - 1], hook), destroy[|destroy| - 1], hook)
  }

  function Retain(mbs: seq<Mailbox>, gone: set<Id>): seq<Mailbox> {
    if mbs == [] then []
    else
      var last := mbs[|mbs| - 1];
      Retain(mbs[..|mbs| - 1], gone) + if last.id in gone then [] else [last]
  }

  function Drafted(mbs: seq<Mailbox>, req: SetRequest, hook: Hook): Draft {
    DestroyAll(UpdateAll(CreateAll(Draft(mbs, UNCHANGED), req.create, hook), req.update), req.destroy, hook)
  }

  /** The new list and its record; None when nothing was accepted. */
  function SetResult(mbs: seq<Mailbox>, req: SetRequest, hook: Hook): Option<Draft> {
    var d := Drafted(mbs, req, hook);
    if d.rec == UNCHANGED then None else Some(Draft(Retain(d.mbs, Elems(d.rec.removed)), d.rec))
  }

  method Set(mbs0: seq<Mailbox>, req: SetRequest, hook: Hook) returns (r: Option<Draft>)
    ensures r == SetResult(mbs0, req, hook)
  {
    hide IdsOf, Elems, WithId, PositionOf, Retain;
    var mbs, rec, changed := mbs0, UNCHANGED, false;
    for i := 0 to |req.create|
      invariant Draft(mbs, rec) == CreateAll(Draft(mbs0, UNCHANGED), req.create[..i], hook)
      invariant (changed <==> rec != UNCHANGED) && rec.removed == []
    {
      assert req.create[..i + 1][..i] == req.create[..i];
      var mb := WithId(req.create[i].0, req.create[i].1);
      if hook(Create, mb.id) {
        rec := rec.(added := rec.added + [mb.id]);
        mbs := mbs + [mb];
        changed := true;
      }
    }
    ghost var made := Draft(mbs, rec);
    assert req.create[..|req.create|] == req.create;
    for i := 0 to |req.update|
      invariant Draft(mbs, rec) == UpdateAll(made, req.update[..i])
      invariant (changed <==> rec != UNCHANGED) && rec.removed == []
    {
      assert req.update[..i + 1][..i] == req.update[..i];
      var (id, name) := req.update[i];
      var idx := PositionOf(mbs, id);
      if idx.Some? {
        if name.Some? {
          mbs := mbs[idx.value := mbs[idx.value].(name := name.value)];
        }
        rec := rec.(updated := rec.updated + [id]);
        changed := true;
      }
    }
    ghost var renamed := Draft(mbs, rec);
    assert req.update[..|req.update|] == req.update;
    var destroySet: set<Id> := {};
    NoElems();
    for i := 0 to |req.destroy|
      invariant Draft(mbs, rec) == DestroyAll(renamed, req.destroy[..i], hook)
      invariant changed <==> rec != UNCHANGED
      invariant destroySet == Elems(rec.removed)
    {
      assert req.destroy[..i + 1][..i] == req.destroy[..i];
      var id := req.destroy[i];
      if id in IdsOf(mbs) && hook(Destroy, id) {
        ElemsAppend(rec.removed, id);
        destroySet := destroySet + {id};
        rec := rec.(removed := rec.removed + [id]);
        changed := true;
      }
    }
    assert req.destroy[..|req.destroy|] == req.destroy;
    r := if changed then Some(Draft(Retain(mbs, destroySet), rec)) else None;
  }

  // ---- the record tells the truth about the ids --------------------------------------------------

  /** The list holds the old ids and the created ones; only those were updated or destroyed. */
  ghost predicate Tells(before: set<Id>, d: Draft) {
    && IdsOf(d.mbs) == before + Elems(d.rec.added)
    && Elems(d.rec.updated) <= IdsOf(d.mbs) && Elems(d.rec.removed) <= IdsOf(d.mbs)
  }

  lemma IdsSnoc(mbs: seq<Mailbox>, mb: Mailbox)
    ensures IdsOf(mbs + [mb]) == IdsOf(mbs) + {mb.id}
  {
    assert forall i :: 0 <= i < |mbs| ==> (mbs + [mb])[i] == mbs[i];
    assert (mbs + [mb])[|mbs|] == mb;
    forall id | id in IdsOf(mbs) ensures id in IdsOf(mbs + [mb]) {
      var i :| 0 <= i < |mbs| && mbs[i].id == id;
      assert (mbs + [mb])[i].id == id;
    }
  }

  lemma IdsRenamed(mbs: seq<Mailbox>, i: nat, mb: Mailbox)
    requires i < |mbs| && mb.id == mbs[i].id
    ensures IdsOf(mbs[i := mb]) == IdsOf(mbs)
  {
    assert forall j :: 0 <= j < |mbs| ==> mbs[i := mb][j].id == mbs[j].id;
  }

  lemma ElemsAppend(s: seq<Id>, x: Id)
    ensures Elems(s + [x]) == Elems(s) + {x}
  {
  }

  lemma CreateSnoc(d: Draft, create: seq<(string, Mailbox)>, hook: Hook)
    requires create != []
    ensures var last := create[|create| - 1];
            CreateAll(d, create, hook) == CreateOne(CreateAll(d, create[..|create| - 1], hook), last.0, last.1, hook)
  {
    hide CreateOne;
  }

  lemma UpdateSnoc(d: Draft, update: seq<(Id, Option<string>)>)
    requires update != []
    ensures var last := update[|update| - 1];
            UpdateAll(d, update) == UpdateOne(UpdateAll(d, update[..|update| - 1]), last.0, last.1)
  {
    hide UpdateOne;
  }

  lemma DestroySnoc(d: Draft, destroy: seq<Id>, hook: Hook)
    requires destroy != []
    ensures DestroyAll(d, destroy, hook)
         == DestroyOne(DestroyAll(d, destroy[..|destroy| - 1], hook), destroy[|destroy| - 1], hook)
  {
    hide DestroyOne;
  }

  lemma {:induction false} CreateTells(before: set<Id>, d: Draft, create: seq<(string, Mailbox)>, hook: Hook)
    requires Tells(before, d)
    ensures Tells(before, CreateAll(d, create, hook))
  {
    if create != [] {
      var last := create[|create| - 1];
      CreateTells(before, d, create[..|create| - 1], hook);
      var d' := CreateAll(d, create[..|create| - 1], hook);
      var mb := WithId(last.0, last.1);
      IdsSnoc(d'.mbs, mb);
      ElemsAppend(d'.rec.added, mb.id);
      hide IdsOf, Elems, CreateAll;
      CreateSnoc(d, create, hook);
      assert Tells(before, CreateOne(d', last.0, last.1, hook));
    }
  }

  lemma {:induction false} UpdateTells(before: set<Id>, d: Draft, update: seq<(Id, Option<string>)>)
    requires Tells(before, d)
    ensures Tells(before, UpdateAll(d, update))
  {
    if update != [] {
      var (id, name) := update[|update| - 1];
      UpdateTells(before, d, update[..|update| - 1]);
      var d' := UpdateAll(d, update[..|update| - 1]);
      var at := PositionOf(d'.mbs, id);
      if at.Some? {
        if name.Some? {
          IdsRenamed(d'.mbs, at.value, d'.mbs[at.value].(name := name.value));
        }
        ElemsAppend(d'.rec.updated, id);
      }
      hide IdsOf, Elems, PositionOf, UpdateAll;
      UpdateSnoc(d, update);
      assert Tells(before, UpdateOne(d', id, name));
    }
  }

  lemma {:induction false} DestroyTells(before: set<Id>, d: Draft, destroy: seq<Id>, hook: Hook)
    requires Tells(before, d)
    ensures Tells(before, DestroyAll(d, destroy, hook))
  {
    if destroy != [] {
      var id := destroy[|destroy| - 1];
      DestroyTells(before, d, destroy[..|destroy| - 1], hook);
      var d' := DestroyAll(d, destroy[..|destroy| - 1], hook);
      ElemsAppend(d'.rec.removed, id);
      hide IdsOf, Elems, DestroyAll;
      DestroySnoc(d, destroy, hook);
      assert Tells(before, DestroyOne(d', id, hook));
    }
  }

  lemma {:induction false} RetainIds(mbs: seq<Mailbox>, gone: set<Id>)
    ensures IdsOf(Retain(mbs, gone)) == IdsOf(mbs) - gone
  {
    if mbs != [] {
      var init, last := mbs[..|mbs| - 1], mbs[|mbs| - 1];
      RetainIds(init, gone);
      assert mbs == init + [last];
      IdsSnoc(init, last);
      if last.id in gone {
        assert Retain(mbs, gone) == Retain(init, gone);
      } else {
        IdsSnoc(Retain(init, gone), last);
      }
    }
  }

  // ---- which ids a request touches -------------------------------------------------------------

  /** A create the hook lets through, with the id it ends up with. */
  predicate Creates(req: SetRequest, hook: Hook, id: Id) {
    hook(Create, id) && exists i :: 0 <= i < |req.create| && WithId(req.create[i].0, req.create[i].1).id == id
  }

  predicate Updates(req: SetRequest, id: Id) {
    exists i :: 0 <= i < |req.update| && req.update[i].0 == id
  }

  predicate Destroys(req: SetRequest, hook: Hook, id: Id) {
    hook(Destroy, id) && id in req.destroy
  }

  lemma {:induction false} CreateAllRecords(d: Draft, create: seq<(string, Mailbox)>, hook: Hook, id: Id)
    ensures var d' := CreateAll(d, create, hook);
            && d'.rec.updated == d.rec.updated && d'.rec.removed == d.rec.removed
            && (id in d'.rec.added <==>
                || id in d.rec.added
                || (hook(Create, id) && exists i :: 0 <= i < |create| && WithId(create[i].0, create[i].1).id == id))
  {
    hide WithId;
    if create != [] {
      var init, last := create[..|create| - 1], create[|create| - 1];
      CreateAllRecords(d, init, hook, id);
      assert create == init + [last];
      if i :| 0 <= i < |init| && WithId(init[i].0, init[i].1).id == id {
        assert WithId(create[i].0, create[i].1).id == id;
      }
    }
  }

  lemma {:induction false} UpdateAllRecords(d: Draft, update: seq<(Id, Option<string>)>, id: Id)
    ensures var d' := UpdateAll(d, update);
            && IdsOf(d'.mbs) == IdsOf(d.mbs) && d'.rec.added == d.rec.added && d'.rec.removed == d.rec.removed
            && (id in d'.rec.updated <==>
                || id in d.rec.updated
                || (id in IdsOf(d.mbs) && exists i :: 0 <= i < |update| && update[i].0 == id))
  {
    if update != [] {
      var init, last := update[..|update| - 1], update[|update| - 1];
      UpdateAllRecords(d, init, id);
      assert update == init + [last];
      var d' := UpdateAll(d, init);
      var at := PositionOf(d'.mbs, last.0);
      if at.Some? && last.1.Some? {
        IdsRenamed(d'.mbs, at.value, d'.mbs[at.value].(name := last.1.value));
      }
      hide IdsOf, PositionOf;
      if i :| 0 <= i < |init| && init[i].0 == id {
        assert update[i].0 == id;
      }
    }
  }

  lemma {:induction false} DestroyAllRecords(d: Draft, destroy: seq<Id>, hook: Hook, id: Id)
    ensures var d' := DestroyAll(d, destroy, hook);
            && d'.mbs == d.mbs && d'.rec.added == d.rec.added && d'.rec.updated == d.rec.updated
            && (id in d'.rec.removed <==>
                id in d.rec.removed || (id in IdsOf(d.mbs) && hook(Destroy, id) && id in destroy))
  {
    hide IdsOf;
    if destroy != [] {
      var init, last := destroy[..|destroy| - 1], destroy[|destroy| - 1];
      DestroyAllRecords(d, init, hook, id);
      assert destroy == init + [last];
    }
  }

  /** The record of a request, id by id. */
  lemma RecordsExactly(mbs: seq<Mailbox>, req: SetRequest, hook: Hook, id: Id)
    ensures var rec := Drafted(mbs, req, hook).rec;
            && (id in rec.added <==> Creates(req, hook, id))
            && (id in rec.updated <==> Updates(req, id) && (id in IdsOf(mbs) || Creates(req, hook, id)))
            && (id in rec.removed <==> Destroys(req, hook, id) && (id in IdsOf(mbs) || Creates(req, hook, id)))
  {
    var d0 := Draft(mbs, UNCHANGED);
    assert Tells(IdsOf(mbs), d0);
    var d1 := CreateAll(d0, req.create, hook);
    CreateTells(IdsOf(mbs), d0, req.create, hook);
    CreateAllRecords(d0, req.create, hook, id);
    UpdateAllRecords(d1, req.update, id);
    DestroyAllRecords(UpdateAll(d1, req.update), req.destroy, hook, id);
    assert id in Elems(d1.rec.added) <==> id in d1.rec.added;
    hide IdsOf, CreateAll, UpdateAll, DestroyAll, WithId;
  }

  /** `Mailbox/set` records exactly how the id set moved. */
  lemma SetKeepsIds(mbs: seq<Mailbox>, req: SetRequest, hook: Hook)
    ensures var d := Drafted(mbs, req, hook);
            && Elems(d.rec.removed) <= IdsOf(mbs) + Elems(d.rec.added)
            && Elems(d.rec.updated) <= IdsOf(mbs) + Elems(d.rec.added)
    ensures var r := SetResult(mbs, req, hook);
            r.Some? ==> IdsOf(r.value.mbs) == IdsOf(mbs) + Elems(r.value.rec.added) - Elems(r.value.rec.removed)
  {
    var d0 := Draft(mbs, UNCHANGED);
    assert Tells(IdsOf(mbs), d0);
    var d1 := CreateAll(d0, req.create, hook);
    CreateTells(IdsOf(mbs), d0, req.create, hook);
    UpdateTells(IdsOf(mbs), d1, req.update);
    DestroyTells(IdsOf(mbs), UpdateAll(d1, req.update), req.destroy, hook);
    hide IdsOf, Elems, CreateAll, UpdateAll, DestroyAll, Retain;
    var d := Drafted(mbs, req, hook);
    RetainIds(d.mbs, Elems(d.rec.removed));
  }
}
