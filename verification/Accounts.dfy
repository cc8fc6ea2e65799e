/**
 The accounts a relay serves and the alias table that routes addresses to them.
 Addresses are looked up in lower case; primaries are filed as they come.
 */
module Accounts {
  import opened Wrappers
  import opened Text
  import opened Ordering

  datatype Account = Account(email: string, directory: string)

  datatype Table = Table(stores: map<string, Account>, aliases: map<string, string>)

  const EMPTY := Table(map[], map[])

  // ---- the operations on a table ---------------------------------------------------------------

  function Aliased(aliases: map<string, string>, extra: seq<string>, primary: string): map<string, string> {
    if extra == [] then aliases
    else Aliased(aliases, extra[..|extra| - 1], primary)[ToLower(extra[|extra| - 1]) := primary]
  }

  function Inserted(t: Table, account: Account, extra: seq<string>): Table {
    Table(t.stores[account.email := account],
          Aliased(t.aliases[account.email := account.email], extra, account.email))
  }

  function Resolve(t: Table, address: string): Option<Account> {
    var key := ToLower(address);
    if key in t.aliases && t.aliases[key] in t.stores then Some(t.stores[t.aliases[key]]) else None
  }

  function AliasAdded(t: Table, alias: string, primary: string): (Table, bool) {
    if primary in t.stores then (t.(aliases := t.aliases[ToLower(alias) := primary]), true) else (t, false)
  }

  function AliasRemoved(t: Table, alias: string, primary: string): (Table, bool) {
    if !EqIgnoreCase(alias, primary) && alias in t.aliases && t.aliases[alias] == primary
    then (t.(aliases := t.aliases - {alias}), true)
    else (t, false)
  }

  function Repointed(aliases: map<string, string>, old_: string, new_: string): map<string, string> {
    map a | a in aliases :: if aliases[a] == old_ then new_ else aliases[a]
  }

  predicate CanMigrate(t: Table, oldPrimary: string, account: Account) {
    oldPrimary in t.stores && account.email !in t.stores
  }

  function Migrated(t: Table, oldPrimary: string, account: Account): (Table, bool) {
    if !CanMigrate(t, oldPrimary, account) then (t, false)
    else
      var primary := account.email;
      (Table((t.stores - {oldPrimary})[primary := account],
             Repointed(t.aliases, oldPrimary, primary)[oldPrimary := primary][primary := primary]), true)
  }

  function Removed(t: Table, primary: string): Table {
    Table(t.stores - {primary}, map a | a in t.aliases && t.aliases[a] != primary :: t.aliases[a])
  }

  /** Every address routing to a primary, other than itself, in key order. */
  function AliasesFor(t: Table, primary: string): (r: seq<string>)
    ensures forall a :: a in r <==> a in t.aliases && t.aliases[a] == primary && a != primary
    ensures Ascending(r)
  {
    Sorted(set a | a in t.aliases && t.aliases[a] == primary && a != primary)
  }

  function PartlyRepointed(aliases: map<string, string>, seen: set<string>, old_: string, new_: string): map<string, string> {
    map a | a in aliases :: if a in seen && aliases[a] == old_ then new_ else aliases[a]
  }

  lemma RepointStep(aliases: map<string, string>, seen: set<string>, key: string, old_: string, new_: string)
    requires key in aliases && key !in seen
    ensures var before := PartlyRepointed(aliases, seen, old_, new_);
            && key in before && before[key] == aliases[key]
            && PartlyRepointed(aliases, seen + {key}, old_, new_) == if aliases[key] == old_ then before[key := new_] else before
  {
  }

  lemma RepointEnds(aliases: map<string, string>, old_: string, new_: string)
    ensures PartlyRepointed(aliases, {}, old_, new_) == aliases
    ensures PartlyRepointed(aliases, aliases.Keys, old_, new_) == Repointed(aliases, old_, new_)
  {
  }

  /** Rewrite the values in place, one alias after the other. */
  method Repoint(aliases: map<string, string>, old_: string, new_: string) returns (r: map<string, string>)
    ensures r == Repointed(aliases, old_, new_)
  {
    hide *;
    RepointEnds(aliases, old_, new_);
    r := aliases;
    var seen: set<string> := {};
    while seen != aliases.Keys
      invariant seen <= aliases.Keys && r == PartlyRepointed(aliases, seen, old_, new_)
      decreases aliases.Keys - seen
    {
      var key :| key in aliases.Keys && key !in seen;
      RepointStep(aliases, seen, key, old_, new_);
      if r[key] == old_ {
        r := r[key := new_];
      }
      seen := seen + {key};
    }
  }

  // ---- the table object ---------------------------------------------------------------------------

  class AccountTable {
    var stores: map<string, Account>
    var aliases: map<string, string>

    function Abs(): Table
      reads this
    {
      Table(stores, aliases)
    }

    constructor ()
      ensures Abs() == EMPTY
    {
      stores, aliases := map[], map[];
    }

    method Insert(account: Account, extra: seq<string>)
      modifies this
      ensures Abs() == Inserted(old(Abs()), account, extra)
    {
      hide ToLower;
      var primary := account.email;
      aliases := aliases[primary := primary];
      for i := 0 to |extra|
        invariant stores == old(stores)
        invariant aliases == Aliased(old(aliases)[primary := primary], extra[..i], primary)
      {
        assert extra[..i + 1][..i] == extra[..i];
        aliases := aliases[ToLower(extra[i]) := primary];
      }
      assert extra[..|extra|] == extra;
      stores := stores[primary := account];
    }

    method AddAlias(alias: string, primary: string) returns (ok: bool)
      modifies this`aliases
      ensures (Abs(), ok) == AliasAdded(old(Abs()), alias, primary)
    {
      if primary !in stores {
        return false;
      }
      aliases := aliases[ToLower(alias) := primary];
      return true;
    }

    method RemoveAlias(alias: string, primary: string) returns (ok: bool)
      modifies this`aliases
      ensures (Abs(), ok) == AliasRemoved(old(Abs()), alias, primary)
    {
      if EqIgnoreCase(alias, primary) {
        return false;
      }
      if alias in aliases && aliases[alias] == primary {
        aliases := aliases - {alias};
        return true;
      }
      return false;
    }

    method MigratePrimary(oldPrimary: string, account: Account) returns (ok: bool)
      modifies this
      ensures (Abs(), ok) == Migrated(old(Abs()), oldPrimary, account)
    {
      if oldPrimary !in stores || account.email in stores {
        return false;
      }
      var newPrimary := account.email;
      stores := stores - {oldPrimary};
      aliases := Repoint(aliases, oldPrimary, newPrimary);
      aliases := aliases[oldPrimary := newPrimary];
      aliases := aliases[newPrimary := newPrimary];
      stores := stores[newPrimary := account];
      return true;
    }

    method Remove(primary: string) returns (gone: Option<Account>)
      modifies this
      ensures Abs() == Removed(old(Abs()), primary)
      ensures gone == if primary in old(stores) then Some(old(stores)[primary]) else None
    {
      gone := if primary in stores then Some(stores[primary]) else None;
      stores := stores - {primary};
      aliases := map a | a in aliases && aliases[a] != primary :: aliases[a];
    }
  }

  // ---- over every run --------------------------------------------------------------------------------

  datatype Op =
    | Insert(account: Account, extra: seq<string>)
    | AddAlias(alias: string, primary: string)
    | RemoveAlias(alias: string, primary: string)
    | Migrate(oldPrimary: string, account: Account)
    | Remove(primary: string)

  function Apply(t: Table, op: Op): Table {
    match op
    case Insert(account, extra) => Inserted(t, account, extra)
    case AddAlias(alias, primary) => AliasAdded(t, alias, primary).0
    case RemoveAlias(alias, primary) => AliasRemoved(t, alias, primary).0
    case Migrate(oldPrimary, account) => Migrated(t, oldPrimary, account).0
    case Remove(primary) => Removed(t, primary)
  }

  function Run(ops: seq<Op>): Table {
    if ops == [] then EMPTY else Apply(Run(ops[..|ops| - 1]), ops[|ops| - 1])
  }

  /** No alias leads nowhere, and an account is filed under its own address. */
  ghost predicate Sound(t: Table) {
    && (forall a :: a in t.aliases ==> t.aliases[a] in t.stores)
    && (forall p :: p in t.stores ==> t.stores[p].email == p)
  }

  lemma {:induction false} AliasedTargets(aliases: map<string, string>, extra: seq<string>, primary: string)
    ensures forall a :: a in Aliased(aliases, extra, primary) ==>
              var to := Aliased(aliases, extra, primary)[a];
              to == primary || (a in aliases && to == aliases[a])
  {
    if extra != [] {
      AliasedTargets(aliases, extra[..|extra| - 1], primary);
    }
  }

  lemma StepIsSound(t: Table, op: Op)
    requires Sound(t)
    ensures Sound(Apply(t, op))
  {
    match op
    case Insert(account, extra) =>
      AliasedTargets(t.aliases[account.email := account.email], extra, account.email);
    case _ =>
  }

  /** Whatever was done to the table, every alias in it reaches an account. */
  lemma {:induction false} RunIsSound(ops: seq<Op>)
    ensures Sound(Run(ops))
  {
    if ops != [] {
      RunIsSound(ops[..|ops| - 1]);
      StepIsSound(Run(ops[..|ops| - 1]), ops[|ops| - 1]);
    }
  }

  // ---- migration -----------------------------------------------------------------------------------------

  /** What led to the old account leads to the new one, and so do both primaries as filed. */
  predicate Moves(t: Table, oldPrimary: string, account: Account, address: string) {
    var key := ToLower(address);
    key == oldPrimary || key == account.email || (key in t.aliases && t.aliases[key] == oldPrimary)
  }

  /** After a migration an address reaches the new account exactly if it moves; the rest stay put. */
  lemma MigrationMovesExactly(ops: seq<Op>, oldPrimary: string, account: Account, address: string)
    requires CanMigrate(Run(ops), oldPrimary, account)
    ensures var t := Run(ops);
            var t' := Migrated(t, oldPrimary, account).0;
            && (Resolve(t', address) == Some(account) <==> Moves(t, oldPrimary, account, address))
            && (!Moves(t, oldPrimary, account, address) ==> Resolve(t', address) == Resolve(t, address))
            && oldPrimary != account.email && oldPrimary !in t'.stores
  {
    RunIsSound(ops);
    hide Run, ToLower;
  }

  /** Everything that reached the old account before reaches the new one after. */
  lemma MigrationKeepsAddresses(ops: seq<Op>, oldPrimary: string, account: Account, address: string)
    requires CanMigrate(Run(ops), oldPrimary, account)
    requires Resolve(Run(ops), address).Some? && Resolve(Run(ops), address).value.email == oldPrimary
    ensures Resolve(Migrated(Run(ops), oldPrimary, account).0, address) == Some(account)
  {
    RunIsSound(ops);
    MigrationMovesExactly(ops, oldPrimary, account, address);
    hide Run, ToLower;
  }

  lemma LowerIdempotent(s: string)
    ensures ToLower(ToLower(s)) == ToLower(s)
  {
  }

  /** The old primary itself keeps delivering exactly if it is in lower case or was aliased so. */
  lemma OldPrimaryDelivers(ops: seq<Op>, oldPrimary: string, account: Account)
    requires CanMigrate(Run(ops), oldPrimary, account)
    ensures var t := Run(ops);
            var key := ToLower(oldPrimary);
            Resolve(Migrated(t, oldPrimary, account).0, oldPrimary) == Some(account) <==>
              key == oldPrimary || key == account.email || (key in t.aliases && t.aliases[key] == oldPrimary)
  {
    MigrationMovesExactly(ops, oldPrimary, account, oldPrimary);
    hide Run, ToLower, Migrated, Resolve;
  }

  // ---- removal ---------------------------------------------------------------------------------------------

  /** After a removal nothing reaches that account, and all other addresses are as before. */
  lemma RemovalIsComplete(ops: seq<Op>, primary: string, address: string)
    ensures var t := Run(ops);
            var after := Resolve(Removed(t, primary), address);
            if Resolve(t, address).Some? && Resolve(t, address).value.email == primary
            then after == None
            else after == Resolve(t, address) && (after.Some? ==> after.value.email != primary)
  {
    RunIsSound(ops);
    hide Run, ToLower;
  }

  /** Removing an alias needs it spelled as stored: in lower case, or as a primary was filed. */
  lemma RemoveAliasExactly(t: Table, alias: string, primary: string)
    requires primary in t.stores
    ensures var added := AliasAdded(t, alias, primary).0;
            AliasRemoved(added, alias, primary).1 <==>
              && !EqIgnoreCase(alias, primary)
              && (ToLower(alias) == alias || (alias in t.aliases && t.aliases[alias] == primary))
  {
    LowerIdempotent(alias);
  }

  // ---- does a primary reach its own account? ---------------------------------------------------------------

  predicate ReachesItself(t: Table, primary: string) {
    Resolve(t, primary).Some? && Resolve(t, primary).value.email == primary
  }

  /** The addresses an insertion files under the account. */
  predicate Claims(account: Account, extra: seq<string>, key: string) {
    key == account.email || exists i :: 0 <= i < |extra| && ToLower(extra[i]) == key
  }

  lemma {:induction false} AliasedExactly(aliases: map<string, string>, extra: seq<string>, primary: string, key: string)
    ensures var after := Aliased(aliases, extra, primary);
            if exists i :: 0 <= i < |extra| && ToLower(extra[i]) == key then key in after && after[key] == primary
            else (key in after <==> key in aliases) && (key in after ==> after[key] == aliases[key])
  {
    if extra != [] {
      var init := extra[..|extra| - 1];
      AliasedExactly(aliases, init, primary, key);
      hide ToLower;
      assert extra == init + [extra[|extra| - 1]];
      if i :| 0 <= i < |init| && ToLower(init[i]) == key {
        assert ToLower(extra[i]) == key;
      }
    }
  }

  lemma InsertTakesExactly(t: Table, account: Account, extra: seq<string>, p: string)
    requires Sound(t)
    ensures ReachesItself(Inserted(t, account, extra), p) <==>
              if Claims(account, extra, ToLower(p)) then p == account.email else ReachesItself(t, p)
  {
    StepIsSound(t, Insert(account, extra));
    AliasedExactly(t.aliases[account.email := account.email], extra, account.email, ToLower(p));
    hide ToLower, Aliased;
  }

  lemma AddAliasTakesExactly(t: Table, alias: string, primary: string, p: string)
    requires Sound(t) && primary in t.stores
    ensures ReachesItself(AliasAdded(t, alias, primary).0, p) <==>
              if EqIgnoreCase(alias, p) then p == primary else ReachesItself(t, p)
  {
    hide ToLower;
  }

  lemma RemoveAliasTakesNone(t: Table, alias: string, primary: string, p: string)
    requires Sound(t)
    ensures ReachesItself(AliasRemoved(t, alias, primary).0, p) <==> ReachesItself(t, p)
  {
    LowerIdempotent(p);
    hide ToLower;
  }

  lemma MigrationTakesExactly(t: Table, oldPrimary: string, account: Account, p: string)
    requires Sound(t) && CanMigrate(t, oldPrimary, account)
    ensures ReachesItself(Migrated(t, oldPrimary, account).0, p) <==>
              if Moves(t, oldPrimary, account, p) then p == account.email else ReachesItself(t, p)
  {
    hide ToLower;
  }

  lemma RemovalTakesExactly(t: Table, primary: string, p: string)
    requires Sound(t)
    ensures ReachesItself(Removed(t, primary), p) <==> p != primary && ReachesItself(t, p)
  {
    hide ToLower;
  }

  /** Whether an address reaches its own account after an operation, from what held before it. */
  predicate ReachesAfter(t: Table, op: Op, p: string) {
    match op
    case Insert(account, extra) =>
      if Claims(account, extra, ToLower(p)) then p == account.email else ReachesItself(t, p)
    case AddAlias(alias, primary) =>
      if primary in t.stores && EqIgnoreCase(alias, p) then p == primary else ReachesItself(t, p)
    case RemoveAlias(_, _) => ReachesItself(t, p)
    case Migrate(oldPrimary, account) =>
      if CanMigrate(t, oldPrimary, account) && Moves(t, oldPrimary, account, p) then p == account.email
      else ReachesItself(t, p)
    case Remove(primary) => p != primary && ReachesItself(t, p)
  }

  /** Every operation, exactly: what it does to an address reaching its own account. */
  lemma StepTakesExactly(t: Table, op: Op, p: string)
    requires Sound(t)
    ensures ReachesItself(Apply(t, op), p) <==> ReachesAfter(t, op, p)
  {
    hide ReachesItself, Inserted, Claims, Moves, Sound, ToLower, Removed;
    match op
    case Insert(account, extra) => InsertTakesExactly(t, account, extra, p);
    case AddAlias(alias, primary) =>
      if primary in t.stores {
        AddAliasTakesExactly(t, alias, primary, p);
      }
    case RemoveAlias(alias, primary) => RemoveAliasTakesNone(t, alias, primary, p);
    case Migrate(oldPrimary, account) =>
      if CanMigrate(t, oldPrimary, account) {
        MigrationTakesExactly(t, oldPrimary, account, p);
      }
    case Remove(primary) => RemovalTakesExactly(t, primary, p);
  }

  ghost predicate AllReachThemselves(t: Table) {
    forall p :: p in t.stores ==> ReachesItself(t, p)
  }

  /**
   What a caller has to look at first.  A new primary is its own lower case, is given its
   lower case as an alias, or is there already; and no address of another account is taken.
   */
  ghost predicate Careful(t: Table, op: Op) {
    match op
    case Insert(account, extra) =>
      && (account.email in t.stores || Claims(account, extra, ToLower(account.email)))
      && forall q :: q in t.stores && q != account.email ==> !Claims(account, extra, ToLower(q))
    case AddAlias(alias, primary) =>
      primary in t.stores ==> forall q :: q in t.stores && q != primary ==> !EqIgnoreCase(alias, q)
    case Migrate(oldPrimary, account) =>
      CanMigrate(t, oldPrimary, account) ==>
        && Moves(t, oldPrimary, account, account.email)
        && forall q :: q in t.stores && q != oldPrimary ==> !Moves(t, oldPrimary, account, q)
    case _ => true
  }

  /** On such a table the exact effect comes down to who is in it afterwards. */
  lemma CarefulMeans(t: Table, op: Op)
    requires forall p :: ReachesItself(t, p) <==> p in t.stores
    ensures Careful(t, op) <==> forall p :: p in Apply(t, op).stores ==> ReachesAfter(t, op, p)
  {
    hide ReachesItself, Claims, Moves, Aliased, Repointed, ToLower;
    match op
    case Insert(account, extra) =>
      assert forall q :: q in Apply(t, op).stores <==> q == account.email || q in t.stores;
      assert ReachesAfter(t, op, account.email)
        <==> account.email in t.stores || Claims(account, extra, ToLower(account.email));
    case AddAlias(alias, primary) => assert forall q :: q in Apply(t, op).stores <==> q in t.stores;
    case RemoveAlias(_, _) =>
    case Migrate(oldPrimary, account) =>
      if CanMigrate(t, oldPrimary, account) {
        var stores := Apply(t, op).stores;
        assert forall q :: q in stores <==> q == account.email || (q in t.stores && q != oldPrimary);
        assert ReachesAfter(t, op, account.email) <==> Moves(t, oldPrimary, account, account.email);
      }
    case Remove(primary) =>
  }

  lemma CarefulStep(t: Table, op: Op)
    requires Sound(t) && AllReachThemselves(t)
    ensures AllReachThemselves(Apply(t, op)) <==> Careful(t, op)
  {
    var t' := Apply(t, op);
    forall p ensures ReachesItself(t', p) <==> ReachesAfter(t, op, p) {
      StepTakesExactly(t, op, p);
    }
    assert forall p :: ReachesItself(t, p) <==> p in t.stores;
    CarefulMeans(t, op);
    hide ReachesAfter, Careful, Apply;
  }

  ghost predicate ReachThroughout(ops: seq<Op>) {
    forall k :: 0 <= k <= |ops| ==> AllReachThemselves(Run(ops[..k]))
  }

  ghost predicate AllCareful(ops: seq<Op>) {
    forall k :: 0 <= k < |ops| ==> Careful(Run(ops[..k]), ops[k])
  }

  lemma ThroughoutSnoc(init: seq<Op>, op: Op)
    ensures ReachThroughout(init + [op]) <==> ReachThroughout(init) && AllReachThemselves(Run(init + [op]))
    ensures AllCareful(init + [op]) <==> AllCareful(init) && Careful(Run(init), op)
  {
    hide AllReachThemselves, Careful, Run;
    var ops := init + [op];
    assert forall k :: 0 <= k <= |init| ==> init[..k] == ops[..k];
    assert init[..|init|] == init && ops[..|ops|] == ops;
    assert forall k :: 0 <= k < |init| ==> init[k] == ops[k];
    assert ops[|init|] == op;
    if ReachThroughout(init) && AllReachThemselves(Run(ops)) {
      forall k | 0 <= k <= |ops| ensures AllReachThemselves(Run(ops[..k])) {
        if k <= |init| {
          assert init[..k] == ops[..k];
        }
      }
    }
  }

  /** Over every run: all primaries reach themselves throughout exactly if every step was careful. */
  lemma {:induction false} PrimariesReachThemselves(ops: seq<Op>)
    ensures ReachThroughout(ops) <==> AllCareful(ops)
  {
    if ops == [] {
      EmptyReaches();
    } else {
      var init, last := ops[..|ops| - 1], ops[|ops| - 1];
      assert ops == init + [last];
      PrimariesReachThemselves(init);
      ThroughoutSnoc(init, last);
      RunIsSound(init);
      assert ReachThroughout(init) ==> AllReachThemselves(Run(init)) by {
        assert init[..|init|] == init;
      }
      hide AllReachThemselves, Careful, Apply, Sound, ReachThroughout, AllCareful;
      if AllReachThemselves(Run(init)) {
        CarefulStep(Run(init), last);
      }
    }
  }

  lemma EmptyReaches()
    ensures ReachThroughout([]) && AllCareful([])
  {
  }

  /** Two accounts, and one claims the other's address: it no longer reaches its own. */
  lemma AddAliasMayTake()
    ensures var a, b := Account("a", ""), Account("b", "");
            var t := Run([Insert(a, []), Insert(b, []), AddAlias("b", "a")]);
            "b" in t.stores && !ReachesItself(t, "b") && Resolve(t, "b") == Some(a)
  {
    var a, b := Account("a", ""), Account("b", "");
    RunThree(Insert(a, []), Insert(b, []), AddAlias("b", "a"));
    assert ToLower("b") == "b";
  }

  /** An insertion alone does it: a primary with a capital, or one that another account's alias takes. */
  lemma InsertMayTake()
    ensures var t := Run([Insert(Account("A", ""), [])]);
            "A" in t.stores && !ReachesItself(t, "A")
    ensures var t := Run([Insert(Account("b", ""), []), Insert(Account("a", ""), ["b"])]);
            "b" in t.stores && !ReachesItself(t, "b")
  {
    RunOne(Insert(Account("A", ""), []));
    assert ToLower("A") == "a";
    RunTwo(Insert(Account("b", ""), []), Insert(Account("a", ""), ["b"]));
    assert ToLower("b") == "b";
    assert ["b"][..0] == [];
  }

  /** An old primary with a capital, and no alias for its lower case: after the migration it is lost. */
  lemma OldPrimaryMayStop()
    ensures var t := Run([Insert(Account("A", ""), [])]);
            && CanMigrate(t, "A", Account("b", ""))
            && Resolve(Migrated(t, "A", Account("b", "")).0, "A") == None
  {
    RunOne(Insert(Account("A", ""), []));
    assert ToLower("A") == "a";
  }

  lemma RunOne(x: Op)
    ensures Run([x]) == Apply(EMPTY, x)
  {
    assert [x][..0] == [];
  }

  lemma RunTwo(x: Op, y: Op)
    ensures Run([x, y]) == Apply(Apply(EMPTY, x), y)
  {
    hide Apply;
    RunOne(x);
    assert [x, y][..1] == [x];
  }

  lemma RunThree(x: Op, y: Op, z: Op)
    ensures Run([x, y, z]) == Apply(Apply(Apply(EMPTY, x), y), z)
  {
    hide Apply;
    RunTwo(x, y);
    assert [x, y, z][..2] == [x, y];
  }
}
