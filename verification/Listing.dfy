/**
 The order clients see: newest first, ties by id, the same whether the store is
 filtered before the sort or after it, and stable across the pages of a query
 (section 5.5 of RFC 8620).
 */
module Listing {
  import opened Wrappers
  import opened Ordering
  import opened Emails

  // ---- the library's stable sort -----------------------------------------------------------

  /** Places an element after everything that does not sort behind it. */
  function Insert<T>(s: seq<T>, x: T, key: T -> int): seq<T> {
    if s == [] then [x]
    else if key(s[0]) >= key(x) then [s[0]] + Insert(s[1..], x, key)
    else [x] + s
  }

  /** `sort_by_key(|x| Reverse(key(x)))`: descending, equal keys in input order. */
  function SortDescending<T>(s: seq<T>, key: T -> int): seq<T> {
    if s == [] then [] else Insert(SortDescending(s[..|s| - 1], key), s[|s| - 1], key)
  }

  function Filter<T>(s: seq<T>, keep: T -> bool): seq<T> {
    if s == [] then []
    else Filter(s[..|s| - 1], keep) + if keep(s[|s| - 1]) then [s[|s| - 1]] else []
  }

  function Map<T, U>(s: seq<T>, f: T -> U): (r: seq<U>)
    ensures |r| == |s|
    ensures forall i :: 0 <= i < |s| ==> r[i] == f(s[i])
  {
    seq(|s|, i requires 0 <= i < |s| => f(s[i]))
  }

  // ---- the store's two listings ------------------------------------------------------------

  /** `all()`. */
  function All(msgs: Messages): seq<Email> {
    SortDescending(Values(msgs), SortKey)
  }

  function TimedId(m: Email): (int, Id) {
    (SortKey(m), m.id)
  }

  function Time(p: (int, Id)): int {
    p.0
  }

  function IdOf(p: (int, Id)): Id {
    p.1
  }

  function EmailId(m: Email): Id {
    m.id
  }

  /** `matching_ids(keep)`: filter, project, then sort. */
  function MatchingIds(msgs: Messages, keep: Email -> bool): seq<Id> {
    Map(SortDescending(Map(Filter(Values(msgs), keep), TimedId), Time), IdOf)
  }

  // ---- order -----------------------------------------------------------------------------------

  predicate Before(a: Email, b: Email) {
    SortKey(a) > SortKey(b) || (SortKey(a) == SortKey(b) && Less(a.id, b.id))
  }

  ghost predicate Ordered(s: seq<Email>) {
    forall i, j :: 0 <= i < j < |s| ==> Before(s[i], s[j])
  }

  ghost predicate Falling<T>(s: seq<T>, key: T -> int) {
    forall i, j :: 0 <= i < j < |s| ==> key(s[i]) >= key(s[j])
  }

  lemma {:induction false} InsertContents<T>(s: seq<T>, x: T, key: T -> int)
    ensures multiset(Insert(s, x, key)) == multiset(s) + multiset{x}
  {
    if s != [] {
      assert s == [s[0]] + s[1..];
      InsertContents(s[1..], x, key);
    }
  }

  lemma {:induction false} SortContents<T>(s: seq<T>, key: T -> int)
    ensures multiset(SortDescending(s, key)) == multiset(s)
  {
    if s != [] {
      SortContents(s[..|s| - 1], key);
      InsertContents(SortDescending(s[..|s| - 1], key), s[|s| - 1], key);
      assert s == s[..|s| - 1] + [s[|s| - 1]];
    }
  }

  lemma MemberOf<T>(a: seq<T>, b: seq<T>, x: T)
    requires multiset(a) == multiset(b) && x in a
    ensures x in b
  {
    assert x in multiset(a);
  }

  lemma {:induction false} InsertFalls<T>(s: seq<T>, x: T, key: T -> int)
    requires Falling(s, key)
    ensures Falling(Insert(s, x, key), key)
  {
    if s != [] && key(s[0]) >= key(x) {
      InsertFalls(s[1..], x, key);
      InsertContents(s[1..], x, key);
      var rest := Insert(s[1..], x, key);
      forall j | 0 <= j < |rest| ensures key(s[0]) >= key(rest[j]) {
        MemberOf(rest, s[1..] + [x], rest[j]);
      }
    }
  }

  lemma {:induction false} SortFalls<T>(s: seq<T>, key: T -> int)
    ensures Falling(SortDescending(s, key), key)
  {
    if s != [] {
      SortFalls(s[..|s| - 1], key);
      InsertFalls(SortDescending(s[..|s| - 1], key), s[|s| - 1], key);
    }
  }

  /** Inserting the largest id so far keeps the strict order. */
  lemma {:induction false} InsertOrdered(s: seq<Email>, m: Email)
    requires Ordered(s) && forall i :: 0 <= i < |s| ==> Less(s[i].id, m.id)
    ensures Ordered(Insert(s, m, SortKey))
  {
    if s != [] && SortKey(s[0]) >= SortKey(m) {
      InsertOrdered(s[1..], m);
      InsertContents(s[1..], m, SortKey);
      var rest := Insert(s[1..], m, SortKey);
      forall j | 0 <= j < |rest| ensures Before(s[0], rest[j]) {
        MemberOf(rest, s[1..] + [m], rest[j]);
      }
    } else if s != [] {
      assert forall j :: 0 < j < |s| ==> Before(s[0], s[j]);
    }
  }

  predicate IdsAscend(s: seq<Email>) {
    forall i, j :: 0 <= i < j < |s| ==> Less(s[i].id, s[j].id)
  }

  lemma {:induction false} SortOrdered(s: seq<Email>)
    requires IdsAscend(s)
    ensures Ordered(SortDescending(s, SortKey))
  {
    if s != [] {
      var init, last := s[..|s| - 1], s[|s| - 1];
      var sorted := SortDescending(init, SortKey);
      SortOrdered(init);
      SortContents(init, SortKey);
      forall i | 0 <= i < |sorted| ensures Less(sorted[i].id, last.id) {
        MemberOf(sorted, init, sorted[i]);
      }
      InsertOrdered(sorted, last);
    }
  }

  /** `all()` holds every message once, newest first, ties in id order. */
  lemma AllIsOrdered(msgs: Messages)
    requires Keyed(msgs)
    ensures Ordered(All(msgs))
    ensures forall m :: m in All(msgs) <==> m.id in msgs && msgs[m.id] == m
  {
    SortOrdered(Values(msgs));
    SortContents(Values(msgs), SortKey);
    forall m ensures m in All(msgs) <==> m.id in msgs && msgs[m.id] == m {
      if m in All(msgs) {
        MemberOf(All(msgs), Values(msgs), m);
      }
      if m.id in msgs && msgs[m.id] == m {
        assert m.id in Sorted(msgs.Keys);
        MemberOf(Values(msgs), All(msgs), m);
      }
    }
  }

  lemma BeforeIsStrict(a: Email, b: Email)
    requires Before(a, b)
    ensures a != b && !Before(b, a)
  {
    LessIsStrict(a.id, b.id);
  }

  /** The order leaves no choice: one set of messages has one listing. */
  lemma {:induction false} OrderedUnique(a: seq<Email>, b: seq<Email>)
    requires Ordered(a) && Ordered(b) && forall m :: m in a <==> m in b
    ensures a == b
  {
    if a == [] || b == [] {
      HasMember(a);
      HasMember(b);
    } else {
      assert a[0] in b && b[0] in a;
      if a[0] != b[0] {
        BeforeIsStrict(a[0], b[0]);
      }
      forall m ensures m in a[1..] <==> m in b[1..] {
        TailMembers(a, m);
        TailMembers(b, m);
      }
      OrderedUnique(a[1..], b[1..]);
      assert a == [a[0]] + a[1..] && b == [b[0]] + b[1..];
    }
  }

  lemma HasMember(s: seq<Email>)
    ensures s == [] || exists m :: m in s
  {
    assert s == [] || s[0] in s;
  }

  lemma TailMembers(s: seq<Email>, m: Email)
    requires Ordered(s) && s != []
    ensures m in s[1..] <==> m in s && m != s[0]
  {
    if m in s[1..] {
      var i :| 0 <= i < |s| - 1 && s[1..][i] == m;
      BeforeIsStrict(s[0], s[i + 1]);
    }
  }

  // ---- filtering and sorting commute --------------------------------------------------------------

  lemma FilterSnoc<T>(s: seq<T>, x: T, keep: T -> bool)
    ensures Filter(s + [x], keep) == Filter(s, keep) + if keep(x) then [x] else []
  {
    assert (s + [x])[..|s|] == s;
  }

  lemma {:induction false} FilterCons<T>(x: T, s: seq<T>, keep: T -> bool)
    ensures Filter([x] + s, keep) == (if keep(x) then [x] else []) + Filter(s, keep)
  {
    if s == [] {
      assert [x] + s == [] + [x];
    } else {
      var init, last := s[..|s| - 1], s[|s| - 1];
      FilterCons(x, init, keep);
      assert [x] + s == ([x] + init) + [last];
      FilterSnoc([x] + init, last, keep);
    }
  }

  lemma {:induction false} FilterMembers<T>(s: seq<T>, keep: T -> bool, x: T)
    ensures x in Filter(s, keep) <==> x in s && keep(x)
  {
    if s != [] {
      FilterMembers(s[..|s| - 1], keep, x);
      assert s == s[..|s| - 1] + [s[|s| - 1]];
    }
  }

  lemma InsertCons<T>(a: T, s: seq<T>, x: T, key: T -> int)
    ensures Insert([a] + s, x, key) == if key(a) >= key(x) then [a] + Insert(s, x, key) else [x] + ([a] + s)
  {
    assert ([a] + s)[1..] == s;
  }

  /** Everything in the list sorts behind x, so x goes first. */
  lemma InsertFirst<T>(s: seq<T>, x: T, key: T -> int, keep: T -> bool)
    requires forall i :: 0 <= i < |s| ==> key(s[i]) < key(x)
    ensures Insert(Filter(s, keep), x, key) == [x] + Filter(s, keep)
  {
    var kept := Filter(s, keep);
    if kept != [] {
      FilterMembers(s, keep, kept[0]);
    }
  }

  lemma {:induction false} FilterInsert<T>(s: seq<T>, x: T, key: T -> int, keep: T -> bool)
    requires Falling(s, key)
    ensures Filter(Insert(s, x, key), keep)
         == if keep(x) then Insert(Filter(s, keep), x, key) else Filter(s, keep)
  {
    if s == [] {
      FilterSnoc([], x, keep);
      assert [] + [x] == [x];
    } else {
      assert s == [s[0]] + s[1..];
      FilterCons(s[0], s[1..], keep);
      InsertCons(s[0], Filter(s[1..], keep), x, key);
      hide Filter;
      if key(s[0]) >= key(x) {
        FilterInsert(s[1..], x, key, keep);
        FilterCons(s[0], Insert(s[1..], x, key), keep);
        assert [] + Filter(s[1..], keep) == Filter(s[1..], keep);
        assert [] + Filter(Insert(s[1..], x, key), keep) == Filter(Insert(s[1..], x, key), keep);
      } else {
        FilterCons(x, s, keep);
        InsertFirst(s, x, key, keep);
        assert [] + Filter(s, keep) == Filter(s, keep);
      }
    }
  }

  lemma {:induction false} FilterSort<T>(s: seq<T>, key: T -> int, keep: T -> bool)
    ensures Filter(SortDescending(s, key), keep) == SortDescending(Filter(s, keep), key)
  {
    if s != [] {
      var init, last := s[..|s| - 1], s[|s| - 1];
      FilterSort(init, key, keep);
      SortFalls(init, key);
      FilterInsert(SortDescending(init, key), last, key, keep);
      if keep(last) {
        assert Filter(s, keep)[..|Filter(s, keep)| - 1] == Filter(init, keep);
      } else {
        assert Filter(s, keep) == Filter(init, keep);
      }
    }
  }

  lemma {:induction false} MapInsert(s: seq<Email>, m: Email)
    ensures Map(Insert(s, m, SortKey), TimedId) == Insert(Map(s, TimedId), TimedId(m), Time)
  {
    if s != [] {
      assert Map(s, TimedId)[1..] == Map(s[1..], TimedId);
      if SortKey(s[0]) >= SortKey(m) {
        MapInsert(s[1..], m);
      }
    }
  }

  lemma {:induction false} MapSort(s: seq<Email>)
    ensures Map(SortDescending(s, SortKey), TimedId) == SortDescending(Map(s, TimedId), Time)
  {
    if s != [] {
      MapSort(s[..|s| - 1]);
      MapInsert(SortDescending(s[..|s| - 1], SortKey), s[|s| - 1]);
      assert Map(s, TimedId)[..|s| - 1] == Map(s[..|s| - 1], TimedId);
    }
  }

  /** The cheap listing is the full one, filtered: ties included. */
  lemma MatchingIsFiltered(msgs: Messages, keep: Email -> bool)
    ensures MatchingIds(msgs, keep) == Map(Filter(All(msgs), keep), EmailId)
  {
    FilterSort(Values(msgs), SortKey, keep);
    MapSort(Filter(Values(msgs), keep));
  }

  // ---- paging -----------------------------------------------------------------------------------

  const USIZE: nat := 0x1_0000_0000_0000_0000

  /**
   One page of a query; None is a panic.  The end of the page is computed on machine
   words, before it is cut to the length of the list.
   */
  function Page(ids: seq<Id>, position: int, limit: nat): Option<seq<Id>> {
    var start := if position < 0 then 0 else position;
    if start >= |ids| then Some([])
    else if limit == 0 then Some(ids[start..])
    else
      var end := (start + limit) % USIZE;
      var end' := if end < |ids| then end else |ids|;
      if start <= end' then Some(ids[start..end']) else None
  }

  /** A page fails exactly when its end does not fit a machine word. */
  lemma PagePanicsExactly(ids: seq<Id>, position: int, limit: nat)
    requires |ids| < USIZE && limit < USIZE
    ensures var start := if position < 0 then 0 else position;
            Page(ids, position, limit) == None <==> start < |ids| && start + limit >= USIZE
  {
    var start := if position < 0 then 0 else position;
    if start < |ids| && start + limit >= USIZE {
      assert (start + limit) % USIZE == start + limit - USIZE;
    }
  }

  /** What a client collects that asks for page after page until one comes back empty. */
  function Crawl(ids: seq<Id>, position: nat, limit: nat): Option<seq<Id>>
    requires limit > 0
    decreases |ids| - position
  {
    match Page(ids, position, limit)
    case None => None
    case Some(page) =>
      if page == [] || position >= |ids| then Some([])
      else match Crawl(ids, position + limit, limit)
        case None => None
        case Some(rest) => Some(page + rest)
  }

  /** Where the last page begins that still holds anything: the only one to reach the end of the list. */
  function LastPage(length: nat, position: nat, limit: nat): (r: nat)
    requires limit > 0 && position < length
    ensures position <= r < length <= r + limit
    decreases length - position
  {
    if length <= position + limit then position else LastPage(length, position + limit, limit)
  }

  /** The pages join up with no gap and no repeat, unless the end of the last one does not fit a machine word. */
  lemma {:induction false} CrawlIsWhole(ids: seq<Id>, position: nat, limit: nat)
    requires 0 < limit < USIZE && |ids| < USIZE
    ensures Crawl(ids, position, limit)
         == if position >= |ids| then Some([])
            else if LastPage(|ids|, position, limit) + limit >= USIZE then None
            else Some(ids[position..])
    decreases |ids| - position
  {
    if position < |ids| {
      PagePanicsExactly(ids, position, limit);
      hide Page;
      if position + limit < USIZE {
        PageInside(ids, position, limit);
        CrawlIsWhole(ids, position + limit, limit);
        if position + limit < |ids| {
          assert ids[position..position + limit] + ids[position + limit..] == ids[position..];
        } else {
          assert ids[position..|ids|] + [] == ids[position..];
        }
      }
    }
  }

  lemma PageInside(ids: seq<Id>, position: nat, limit: nat)
    requires limit > 0 && position + limit < USIZE && position < |ids|
    ensures var end := if position + limit < |ids| then position + limit else |ids|;
            Page(ids, position, limit) == Some(ids[position..end]) && ids[position..end] != []
  {
    assert (position + limit) % USIZE == position + limit;
  }

  /** From the start every limit works: no list in memory fills half the address space. */
  lemma CrawlFromStart(ids: seq<Id>, limit: nat)
    requires 0 < limit < USIZE && 2 * |ids| <= USIZE
    ensures Crawl(ids, 0, limit) == Some(ids)
  {
    CrawlIsWhole(ids, 0, limit);
  }

  /** What a page holds: from its start, where a negative one is the first, for the limit, where zero is no limit. */
  lemma PageHolds(ids: seq<Id>, position: int, limit: nat, page: seq<Id>, k: nat)
    requires |ids| < USIZE && limit < USIZE && Page(ids, position, limit) == Some(page)
    ensures position < 0 ==> Page(ids, position, limit) == Page(ids, 0, limit)
    ensures limit > 0 ==> |page| <= limit
    ensures k < |page| ==>
              var start := if position < 0 then 0 else position;
              start + k < |ids| && page[k] == ids[start + k]
    ensures k == |page| ==>
              var start := if position < 0 then 0 else position;
              start + k >= |ids| || k == limit > 0
  {
    var start := if position < 0 then 0 else position;
    PagePanicsExactly(ids, position, limit);
    if start < |ids| && limit > 0 {
      assert (start + limit) % USIZE == start + limit;
    }
  }

  /** The time a message counts with: when it was received, or the epoch. */
  lemma ListedByTime(msgs: Messages, i: nat, j: nat)
    requires Keyed(msgs) && i < j < |All(msgs)|
    ensures var a, b := All(msgs)[i], All(msgs)[j];
            && (a.receivedAt.Some? && b.receivedAt.Some? ==> a.receivedAt.value >= b.receivedAt.value)
            && (a.receivedAt.None? && b.receivedAt.Some? ==> 0 >= b.receivedAt.value)
            && (a.receivedAt.Some? && b.receivedAt.None? ==> a.receivedAt.value >= 0)
            && (a.receivedAt == b.receivedAt ==> Less(a.id, b.id))
  {
    AllIsOrdered(msgs);
    hide All;
    assert Before(All(msgs)[i], All(msgs)[j]);
  }
}
