/**
 What `Mailbox/set` makes of the mailboxes themselves: which are added, which get a new
 name, and which go.
 */
module MailboxLists {
  import opened Wrappers
  import opened ChangeLog
  import opened Mailboxes

  /** An update is about the first mailbox of an id. */
  ghost predicate FirstOfItsId(mbs: seq<Mailbox>, i: nat)
    requires i < |mbs|
  {
    forall j :: 0 <= j < i ==> mbs[j].id != mbs[i].id
  }

  /** The last name a request gives to an id. */
  ghost predicate NamedLast(update: seq<(Id, Option<string>)>, k: nat, id: Id, name: string) {
    && k < |update| && update[k] == (id, Some(name))
    && forall j :: k < j < |update| ==> update[j].0 != id || update[j].1 == None
  }

  ghost predicate NotNamed(update: seq<(Id, Option<string>)>, id: Id) {
    forall j :: 0 <= j < |update| ==> update[j].0 != id || update[j].1 == None
  }

  /** One mailbox before and after the updates: a new name at most, and only where one was given. */
  ghost predicate Renamed(before: Mailbox, after: Mailbox, first: bool, update: seq<(Id, Option<string>)>) {
    && after == before.(name := after.name)
    && (forall k: nat, name :: first && NamedLast(update, k, before.id, name) ==> after.name == name)
    && (!first || NotNamed(update, before.id) ==> after.name == before.name)
  }

  lemma PositionIsFirst(mbs: seq<Mailbox>, i: nat)
    requires i < |mbs|
    ensures PositionOf(mbs, mbs[i].id) == Some(i) <==> FirstOfItsId(mbs, i)
  {
    hide IdsOf, PositionOf;
    var p := PositionOf(mbs, mbs[i].id);
    assert mbs[i].id in IdsOf(mbs);
    assert p.Some?;
  }

  lemma RenamedSnoc(before: Mailbox, middle: Mailbox, after: Mailbox, first: bool,
                    init: seq<(Id, Option<string>)>, id: Id, name: Option<string>)
    requires Renamed(before, middle, first, init)
    requires after == if first && id == before.id && name.Some? then middle.(name := name.value) else middle
    ensures Renamed(before, after, first, init + [(id, name)])
  {
    var update := init + [(id, name)];
    assert update[|init|] == (id, name);
    assert forall j :: 0 <= j < |init| ==> update[j] == init[j];
    forall k: nat, n | first && NamedLast(update, k, before.id, n) ensures after.name == n {
      if k < |init| {
        assert NamedLast(init, k, before.id, n);
      }
    }
    if NotNamed(update, before.id) {
      forall j | 0 <= j < |init| ensures init[j].0 != before.id || init[j].1 == None {
        assert update[j] == init[j];
      }
      assert NotNamed(init, before.id);
    }
  }

  lemma OneUpdate(d: Draft, id: Id, name: Option<string>, i: nat)
    requires i < |d.mbs|
    ensures var d' := UpdateOne(d, id, name);
            && |d'.mbs| == |d.mbs| && (forall j :: 0 <= j < |d.mbs| ==> d'.mbs[j].id == d.mbs[j].id)
            && d'.mbs[i] == if FirstOfItsId(d.mbs, i) && id == d.mbs[i].id && name.Some?
                            then d.mbs[i].(name := name.value) else d.mbs[i]
  {
    PositionIsFirst(d.mbs, i);
    hide IdsOf, FirstOfItsId;
  }

  /**
   After the updates of a request every mailbox is where it was and what it was, but for the
   name: the first of an id has the last name given to it, if any was.
   */
  lemma {:induction false} UpdatesExactly(d: Draft, update: seq<(Id, Option<string>)>, i: nat)
    requires i < |d.mbs|
    ensures var after := UpdateAll(d, update).mbs;
            && |after| == |d.mbs| && (forall j :: 0 <= j < |d.mbs| ==> after[j].id == d.mbs[j].id)
            && Renamed(d.mbs[i], after[i], FirstOfItsId(d.mbs, i), update)
  {
    if update != [] {
      var init := update[..|update| - 1];
      var (id, name) := update[|update| - 1];
      assert update == init + [(id, name)];
      UpdatesExactly(d, init, i);
      var d' := UpdateAll(d, init);
      OneUpdate(d', id, name, i);
      assert FirstOfItsId(d'.mbs, i) <==> FirstOfItsId(d.mbs, i);
      hide UpdateOne, FirstOfItsId, Renamed, NamedLast, NotNamed;
      assert d'.mbs[i].id == d.mbs[i].id;
      RenamedSnoc(d.mbs[i], d'.mbs[i], UpdateOne(d', id, name).mbs[i], FirstOfItsId(d.mbs, i), init, id, name);
    }
  }

  predicate Made(create: seq<(string, Mailbox)>, hook: Hook, i: nat, m: Mailbox) {
    && i < |create| && m == create[i].1.(id := m.id) && hook(Create, m.id)
    && m.id == if create[i].1.id != "" then create[i].1.id else "mbx-" + create[i].0
  }

  ghost function Created(create: seq<(string, Mailbox)>, hook: Hook): seq<Mailbox> {
    if create == [] then []
    else
      var m := WithId(create[|create| - 1].0, create[|create| - 1].1);
      Created(create[..|create| - 1], hook) + if hook(Create, m.id) then [m] else []
  }

  lemma MadeSnoc(init: seq<(string, Mailbox)>, last: (string, Mailbox), hook: Hook, m: Mailbox)
    ensures (exists i :: Made(init + [last], hook, i, m)) <==>
              (exists i :: Made(init, hook, i, m)) || (m == WithId(last.0, last.1) && hook(Create, m.id))
  {
    var create := init + [last];
    assert create[|init|] == last && forall i :: 0 <= i < |init| ==> create[i] == init[i];
    if i: nat :| Made(create, hook, i, m) {
      assert i < |init| ==> Made(init, hook, i, m);
    }
    if i: nat :| Made(init, hook, i, m) {
      assert Made(create, hook, i, m);
    }
    if m == WithId(last.0, last.1) && hook(Create, m.id) {
      assert Made(create, hook, |init|, m);
    }
  }

  lemma {:induction false} CreatedAreMade(create: seq<(string, Mailbox)>, hook: Hook, m: Mailbox)
    ensures m in Created(create, hook) <==> exists i :: Made(create, hook, i, m)
  {
    hide WithId, Made;
    if create == [] {
      NoneMade(hook, m);
    } else {
      var init, last := create[..|create| - 1], create[|create| - 1];
      assert create == init + [last];
      CreatedAreMade(init, hook, m);
      MadeSnoc(init, last, hook, m);
    }
  }

  lemma NoneMade(hook: Hook, m: Mailbox)
    ensures !exists i :: Made([], hook, i, m)
  {
  }

  /** The creates that go through are added at the end, as they came but for a missing id. */
  lemma CreatesExactly(d: Draft, create: seq<(string, Mailbox)>, hook: Hook, m: Mailbox)
    ensures d.mbs <= CreateAll(d, create, hook).mbs
    ensures m in CreateAll(d, create, hook).mbs[|d.mbs|..] <==> exists i :: Made(create, hook, i, m)
  {
    CreatesAppend(d, create, hook);
    CreatedAreMade(create, hook, m);
    hide CreateAll, Made, Created;
    assert (d.mbs + Created(create, hook))[|d.mbs|..] == Created(create, hook);
  }

  lemma {:induction false} CreatesAppend(d: Draft, create: seq<(string, Mailbox)>, hook: Hook)
    ensures CreateAll(d, create, hook).mbs == d.mbs + Created(create, hook)
  {
    hide WithId;
    if create == [] {
      assert d.mbs + [] == d.mbs;
    } else {
      CreatesAppend(d, create[..|create| - 1], hook);
    }
  }

  /** What a destroyed id takes with it: every mailbox of that id, and no other. */
  lemma {:induction false} RetainExactly(mbs: seq<Mailbox>, gone: set<Id>, m: Mailbox)
    ensures m in Retain(mbs, gone) <==> m in mbs && m.id !in gone
  {
    if mbs != [] {
      RetainExactly(mbs[..|mbs| - 1], gone, m);
      assert mbs == mbs[..|mbs| - 1] + [mbs[|mbs| - 1]];
    }
  }
}
