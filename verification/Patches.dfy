/**
 What a patch does to a message, key by key: keywords and mailboxes, and nothing else.
 */
module Patches {
  import opened Wrappers
  import opened Emails
  import opened Store

  /** The keys of a JSON object. */
  ghost predicate DistinctKeys(patch: Patch) {
    forall i, j :: 0 <= i < j < |patch| ==> patch[i].0 != patch[j].0
  }

  ghost predicate Holds(patch: Patch, key: string, v: Json) {
    exists i :: 0 <= i < |patch| && patch[i] == (key, v)
  }

  /** What a flag is after a patch: set, cleared, or as it was. */
  ghost predicate Flagged(before: map<string, bool>, after: map<string, bool>, flag: string,
                          patch: Patch, key: string, sets: bool, clears: bool) {
    && (forall b :: sets && Holds(patch, key, Bool(b)) ==> flag in after && after[flag] == b)
    && (clears && Holds(patch, key, Null) ==> flag !in after)
    && ((forall b :: !(sets && Holds(patch, key, Bool(b)))) && !(clears && Holds(patch, key, Null)) ==>
          (flag in after <==> flag in before) && (flag in after ==> after[flag] == before[flag]))
  }

  lemma HoldsSnoc(patch: Patch, k: string, v: Json, key: string, w: Json)
    ensures Holds(patch + [(k, v)], key, w) <==> Holds(patch, key, w) || (k == key && v == w)
  {
    var all := patch + [(k, v)];
    if i :| 0 <= i < |patch| && patch[i] == (key, w) {
      assert all[i] == (key, w);
    }
    if k == key && v == w {
      assert all[|patch|] == (key, w);
    }
  }

  lemma NotHeldBefore(patch: Patch, k: string, v: Json, w: Json)
    requires DistinctKeys(patch + [(k, v)])
    ensures !Holds(patch, k, w)
  {
    var all := patch + [(k, v)];
    assert all[|patch|] == (k, v);
    assert forall i :: 0 <= i < |patch| ==> all[i] == patch[i] && all[i].0 != k;
  }

  /** One more key: it decides about its own flag and leaves all others alone. */
  lemma FlaggedSnoc(before: map<string, bool>, middle: map<string, bool>, after: map<string, bool>, flag: string,
                    patch: Patch, k: string, v: Json, key: string, sets: bool, clears: bool)
    requires DistinctKeys(patch + [(k, v)]) && Flagged(before, middle, flag, patch, key, sets, clears)
    requires k == key && sets && v.Bool? ==> flag in after && after[flag] == v.b
    requires k == key && clears && v.Null? ==> flag !in after
    requires !(k == key && ((sets && v.Bool?) || (clears && v.Null?))) ==>
               (flag in after <==> flag in middle) && (flag in after ==> after[flag] == middle[flag])
    ensures Flagged(before, after, flag, patch + [(k, v)], key, sets, clears)
  {
    forall w ensures Holds(patch + [(k, v)], key, w) <==> Holds(patch, key, w) || (k == key && v == w) {
      HoldsSnoc(patch, k, v, key, w);
    }
    if k == key {
      forall w ensures !Holds(patch, key, w) {
        NotHeldBefore(patch, k, v, w);
      }
    }
    hide Holds, DistinctKeys;
  }

  lemma KeyOf(prefix: string, key: string, rest: string)
    ensures StripPrefix(key, prefix) == Some(rest) <==> key == prefix + rest
  {
    if prefix <= key {
      assert key == prefix + key[|prefix|..];
    }
  }

  lemma OtherPrefix(flag: string, key: string)
    ensures key == "mailboxIds/" + flag ==> StripPrefix(key, "keywords/") == None
  {
    if key == "mailboxIds/" + flag {
      assert key[0] == 'm' && "keywords/"[0] == 'k';
    }
  }

  /** One key of a patch, seen from one keyword and one mailbox. */
  lemma OneKey(m: Email, k: string, v: Json, both: bool, flag: string)
    ensures var r := PatchOne(m, k, v, both);
            && r == m.(keywords := r.keywords, mailboxIds := r.mailboxIds)
            && (k == "keywords/" + flag && v.Bool? ==> flag in r.keywords && r.keywords[flag] == v.b)
            && (k == "keywords/" + flag && both && v.Null? ==> flag !in r.keywords)
            && (!(k == "keywords/" + flag && (v.Bool? || (both && v.Null?))) ==>
                  (flag in r.keywords <==> flag in m.keywords) && (flag in r.keywords ==> r.keywords[flag] == m.keywords[flag]))
            && (k == "mailboxIds/" + flag && both && v.Bool? ==> flag in r.mailboxIds && r.mailboxIds[flag] == v.b)
            && (k == "mailboxIds/" + flag && both && v.Null? ==> flag !in r.mailboxIds)
            && (!(k == "mailboxIds/" + flag && both && (v.Bool? || v.Null?)) ==>
                  (flag in r.mailboxIds <==> flag in m.mailboxIds)
                  && (flag in r.mailboxIds ==> r.mailboxIds[flag] == m.mailboxIds[flag]))
  {
    KeyOf("keywords/", k, flag);
    KeyOf("mailboxIds/", k, flag);
    OtherPrefix(flag, k);
    hide StripPrefix;
  }

  ghost predicate PatchedTo(m: Email, r: Email, patch: Patch, both: bool, flag: string) {
    && r == m.(keywords := r.keywords, mailboxIds := r.mailboxIds)
    && Flagged(m.keywords, r.keywords, flag, patch, "keywords/" + flag, true, both)
    && Flagged(m.mailboxIds, r.mailboxIds, flag, patch, "mailboxIds/" + flag, both, both)
  }

  lemma PatchedSnoc(m: Email, r: Email, patch: Patch, k: string, v: Json, both: bool, flag: string)
    requires DistinctKeys(patch + [(k, v)]) && PatchedTo(m, r, patch, both, flag)
    ensures PatchedTo(m, PatchOne(r, k, v, both), patch + [(k, v)], both, flag)
  {
    var r' := PatchOne(r, k, v, both);
    OneKey(r, k, v, both, flag);
    hide PatchOne, Flagged, DistinctKeys;
    FlaggedSnoc(m.keywords, r.keywords, r'.keywords, flag, patch, k, v, "keywords/" + flag, true, both);
    FlaggedSnoc(m.mailboxIds, r.mailboxIds, r'.mailboxIds, flag, patch, k, v, "mailboxIds/" + flag, both, both);
  }

  lemma {:induction false} PatchedAll(m: Email, patch: Patch, both: bool, flag: string)
    requires DistinctKeys(patch)
    ensures PatchedTo(m, PatchAll(m, patch, both), patch, both, flag)
  {
    if patch != [] {
      var init := patch[..|patch| - 1];
      var (k, v) := patch[|patch| - 1];
      assert patch == init + [(k, v)];
      PatchedAll(m, init, both, flag);
      hide PatchOne, PatchedTo;
      PatchedSnoc(m, PatchAll(m, init, both), init, k, v, both, flag);
    }
  }

  /**
   A patch of a stored message, for every keyword and mailbox: a boolean under its key is
   its new value, a null clears it, and any other value or no key leaves it as it was.
   Where only keywords may be patched, a null and the mailbox keys do nothing.  Nothing
   else about the message changes, no other message does, and the file holds the result.
   */
  lemma PatchExactly(st: State, id: Id, patch: Patch, both: bool, flag: string)
    requires DistinctKeys(patch) && id in st.msgs
    ensures var st' := PatchState(st, id, patch, both);
            && id in st'.msgs
            && var m, r := st.msgs[id], st'.msgs[id];
            && r == m.(keywords := r.keywords, mailboxIds := r.mailboxIds)
            && Flagged(m.keywords, r.keywords, flag, patch, "keywords/" + flag, true, both)
            && Flagged(m.mailboxIds, r.mailboxIds, flag, patch, "mailboxIds/" + flag, both, both)
            && st'.msgs == st.msgs[id := r]
            && st'.disk.messages == st.disk.messages[FileName(id) := Some(r)]
  {
    PatchedAll(st.msgs[id], patch, both, flag);
    hide PatchAll, Flagged, FileName;
  }
}
