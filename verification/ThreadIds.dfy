/**
 Which thread a new message joins, exactly: its group, or the thread of the first message
 it refers to that the store knows, or one of its own.
 */
module ThreadIds {
  import opened Wrappers
  import opened Text
  import opened Ordering
  import opened Emails
  import opened Threads

  // ---- message ids without their brackets ------------------------------------------------------

  predicate AllBrackets(s: string) {
    forall i :: 0 <= i < |s| ==> IsBracket(s[i])
  }

  lemma {:induction false} TrimsLeft(left: string, rest: string)
    requires AllBrackets(left) && (rest != "" ==> !IsBracket(rest[0]))
    ensures TrimLeft(left + rest) == rest
  {
    if left == "" {
      assert left + rest == rest;
    } else {
      TrimsLeft(left[1..], rest);
      assert (left + rest)[1..] == left[1..] + rest;
    }
  }

  lemma {:induction false} TrimsRight(rest: string, right: string)
    requires AllBrackets(right) && (rest != "" ==> !IsBracket(rest[|rest| - 1]))
    ensures TrimRight(rest + right) == rest
    decreases |right|
  {
    if right == "" {
      assert rest + right == rest;
    } else {
      TrimsRight(rest, right[..|right| - 1]);
      assert (rest + right)[..|rest + right| - 1] == rest + right[..|right| - 1];
    }
  }

  /** `<a@b>` and `a@b` are the same, however many brackets there are. */
  lemma BareExactly(left: string, core: string, right: string)
    requires AllBrackets(left) && AllBrackets(right)
    requires core != "" && !IsBracket(core[0]) && !IsBracket(core[|core| - 1])
    ensures Bare(left + core + right) == core
  {
    assert left + core + right == left + (core + right);
    TrimsLeft(left, core + right);
    TrimsRight(core, right);
    hide TrimLeft, TrimRight;
  }

  // ---- the index ---------------------------------------------------------------------------------

  /** The message goes by this id. */
  predicate Bears(m: Email, key: string) {
    key != "" && exists j :: 0 <= j < |m.messageId| && Bare(m.messageId[j]) == key
  }

  ghost predicate LastBearer(stored: seq<Email>, key: string, i: nat)
    requires i < |stored|
  {
    Bears(stored[i], key) && forall j :: i < j < |stored| ==> !Bears(stored[j], key)
  }

  lemma {:induction false} IndexedMids(index: Index, mids: seq<string>, threadId: Id, key: string)
    ensures var after := IndexMids(index, mids, threadId);
            if key != "" && exists j :: 0 <= j < |mids| && Bare(mids[j]) == key then key in after && after[key] == threadId
            else (key in after <==> key in index) && (key in after ==> after[key] == index[key])
  {
    hide Bare;
    if mids != [] {
      var init := mids[..|mids| - 1];
      IndexedMids(index, init, threadId, key);
      assert mids == init + [mids[|mids| - 1]];
      if j :| 0 <= j < |init| && Bare(init[j]) == key {
        assert Bare(mids[j]) == key;
      }
    }
  }

  lemma {:induction false} IndexExactly(stored: seq<Email>, key: string)
    ensures key in IndexOf(stored) <==> exists i :: 0 <= i < |stored| && Bears(stored[i], key)
    ensures forall i :: 0 <= i < |stored| && LastBearer(stored, key, i) ==>
              key in IndexOf(stored) && IndexOf(stored)[key] == stored[i].threadId
  {
    if stored != [] {
      var init, last := stored[..|stored| - 1], stored[|stored| - 1];
      assert stored == init + [last];
      IndexExactly(init, key);
      IndexedMids(IndexOf(init), last.messageId, last.threadId, key);
      hide Bare, IndexMids, Bears;
      BearsIs(last, key);
      if i :| 0 <= i < |init| && Bears(init[i], key) {
        assert Bears(stored[i], key);
      }
      forall i | 0 <= i < |stored| && LastBearer(stored, key, i)
        ensures key in IndexOf(stored) && IndexOf(stored)[key] == stored[i].threadId
      {
        if i < |init| {
          assert !Bears(stored[|init|], key);
          assert LastBearer(init, key, i) by {
            assert forall j :: i < j < |init| ==> init[j] == stored[j];
          }
        }
      }
    }
  }

  lemma BearsIs(m: Email, key: string)
    ensures Bears(m, key) <==> key != "" && exists j :: 0 <= j < |m.messageId| && Bare(m.messageId[j]) == key
  {
    hide Bare;
  }

  // ---- references -----------------------------------------------------------------------------------

  /** The reference names a stored message with a thread, the last in id order if several go by that id. */
  ghost predicate Leads(msgs: Messages, reference: string, to: Id) {
    && to in msgs && Bears(msgs[to], Bare(reference)) && msgs[to].threadId != ""
    && forall id :: id in msgs && Bears(msgs[id], Bare(reference)) ==> id == to || Less(id, to)
  }

  lemma LeadsIsLast(msgs: Messages, reference: string, to: Id)
    requires Leads(msgs, reference, to)
    ensures exists i :: 0 <= i < |Values(msgs)| && Values(msgs)[i] == msgs[to] && LastBearer(Values(msgs), Bare(reference), i)
  {
    var keys, stored := Sorted(msgs.Keys), Values(msgs);
    hide Bare, Bears, Values;
    assert to in keys;
    var i :| 0 <= i < |keys| && keys[i] == to;
    forall j | i < j < |stored| ensures !Bears(stored[j], Bare(reference)) {
      assert keys[j] in msgs && Less(to, keys[j]);
      LessIsStrict(to, keys[j]);
    }
    assert stored[i] == msgs[to];
  }

  lemma NamesExactly(msgs: Messages, reference: string)
    ensures Names(IndexOf(Values(msgs)), reference) <==> exists to :: Leads(msgs, reference, to)
    ensures forall to :: Leads(msgs, reference, to) ==>
              Bare(reference) in IndexOf(Values(msgs)) && IndexOf(Values(msgs))[Bare(reference)] == msgs[to].threadId
  {
    var stored, key := Values(msgs), Bare(reference);
    IndexExactly(stored, key);
    forall to | Leads(msgs, reference, to)
      ensures key in IndexOf(stored) && IndexOf(stored)[key] == msgs[to].threadId
    {
      LeadsIsLast(msgs, reference, to);
    }
    hide Bare, Bears, IndexOf, Values;
    if Names(IndexOf(stored), reference) {
      var i :| 0 <= i < |stored| && Bears(stored[i], key);
      var last := FindLast(stored, key, i);
      LastLeads(msgs, reference, last);
    }
  }

  lemma FindLast(stored: seq<Email>, key: string, i: nat) returns (last: nat)
    requires i < |stored| && Bears(stored[i], key)
    ensures last < |stored| && LastBearer(stored, key, last)
    decreases |stored| - i
  {
    hide Bears;
    if j :| i < j < |stored| && Bears(stored[j], key) {
      last := FindLast(stored, key, j);
    } else {
      last := i;
    }
  }

  lemma LastLeads(msgs: Messages, reference: string, last: nat)
    requires last < |Values(msgs)| && LastBearer(Values(msgs), Bare(reference), last)
    ensures Values(msgs)[last].threadId != "" ==> exists to :: Leads(msgs, reference, to)
  {
    var keys, stored := Sorted(msgs.Keys), Values(msgs);
    hide Bare, Bears, Values;
    var to := keys[last];
    assert to in msgs && stored[last] == msgs[to];
    forall id | id in msgs && Bears(msgs[id], Bare(reference)) ensures id == to || Less(id, to) {
      assert id in keys;
      var k :| 0 <= k < |keys| && keys[k] == id;
      assert stored[k] == msgs[id];
      assert k <= last;
    }
    assert msgs[to].threadId != "" ==> Leads(msgs, reference, to);
  }

  /** The first reference of a list that leads anywhere. */
  ghost predicate LeadsFirst(msgs: Messages, references: seq<string>, i: nat, to: Id) {
    i < |references| && to in msgs && Leads(msgs, references[i], to) && forall j, other :: 0 <= j < i ==> !Leads(msgs, references[j], other)
  }

  lemma {:induction false} FirstKnownExactly(msgs: Messages, references: seq<string>)
    ensures forall i: nat, to :: LeadsFirst(msgs, references, i, to) ==>
              FirstKnown(IndexOf(Values(msgs)), references) == Some(msgs[to].threadId)
    ensures FirstKnown(IndexOf(Values(msgs)), references) == None <==>
              forall i, to :: 0 <= i < |references| ==> !Leads(msgs, references[i], to)
  {
    hide IndexOf, Values, Leads, Bare;
    if references != [] {
      NamesExactly(msgs, references[0]);
      FirstKnownExactly(msgs, references[1..]);
      var rest := references[1..];
      assert forall i :: 0 < i < |references| ==> references[i] == rest[i - 1];
      forall i: nat, to | LeadsFirst(msgs, references, i, to)
        ensures FirstKnown(IndexOf(Values(msgs)), references) == Some(msgs[to].threadId)
      {
        if i > 0 {
          forall j, other | 0 <= j < i - 1 ensures !Leads(msgs, rest[j], other) {
            assert rest[j] == references[j + 1];
          }
          assert LeadsFirst(msgs, rest, i - 1, to);
        }
      }
      if i, to :| 0 <= i < |rest| && Leads(msgs, rest[i], to) {
        assert Leads(msgs, references[i + 1], to);
      }
    }
  }

  // ---- the thread ---------------------------------------------------------------------------------------

  predicate NamesGroup(h: Header) {
    EqIgnoreCase(h.name, "Chat-Group-Id") && h.value != ""
  }

  ghost predicate FirstGroup(headers: seq<Header>, i: nat) {
    i < |headers| && NamesGroup(headers[i]) && forall j :: 0 <= j < i ==> !NamesGroup(headers[j])
  }

  lemma {:induction false} GroupExactly(headers: seq<Header>)
    ensures forall i: nat :: FirstGroup(headers, i) ==> GroupId(headers) == Some(headers[i].value)
    ensures GroupId(headers) == None <==> forall i :: 0 <= i < |headers| ==> !NamesGroup(headers[i])
  {
    hide EqIgnoreCase;
    if headers != [] {
      var rest := headers[1..];
      GroupExactly(rest);
      assert forall i :: 0 < i < |headers| ==> headers[i] == rest[i - 1];
      assert forall i :: 0 <= i < |rest| ==> rest[i] == headers[i + 1];
      forall i: nat | FirstGroup(headers, i) ensures GroupId(headers) == Some(headers[i].value) {
        if i > 0 {
          assert FirstGroup(rest, i - 1);
        }
      }
    }
  }

  /**
   A group message belongs to its group, whatever it refers to.  Any other joins the thread
   of the first message it answers, and only then of one it merely refers to, that is
   stored; and if there is none it starts a thread under its own Message-ID, or its id.
   */
  lemma ResolvedExactly(msgs: Messages, msg: Email)
    ensures forall i: nat :: FirstGroup(msg.headers, i) ==> Resolved(msgs, msg) == "thr-group-" + msg.headers[i].value
    ensures (forall i :: 0 <= i < |msg.headers| ==> !NamesGroup(msg.headers[i])) ==>
              && (forall i: nat, to :: LeadsFirst(msgs, msg.inReplyTo + msg.references, i, to) ==>
                    Resolved(msgs, msg) == msgs[to].threadId)
              && ((forall i, to :: 0 <= i < |msg.inReplyTo + msg.references| ==>
                     !Leads(msgs, (msg.inReplyTo + msg.references)[i], to)) ==>
                    Resolved(msgs, msg)
                    == "thr-" + if msg.messageId != [] && msg.messageId[0] != "" then msg.messageId[0] else msg.id)
  {
    GroupExactly(msg.headers);
    FirstKnownExactly(msgs, msg.inReplyTo + msg.references);
    hide GroupId, FirstKnown, IndexOf, Values, Leads, LeadsFirst, NamesGroup;
  }
}
