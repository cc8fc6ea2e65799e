/**
 Single-use login nonces: the shared map of live ones, swept on every issue, and what a
 client can see of it over a whole run.
 */
module Nonces {
  const TTL: int := 60

  type Live = map<string, int>

  function Swept(live: Live, now: int): Live {
    map n | n in live && live[n] > now :: live[n]
  }

  function Issued(live: Live, now: int, nonce: string): Live {
    Swept(live, now)[nonce := now + TTL]
  }

  predicate Redeems(live: Live, now: int, nonce: string) {
    nonce in live && live[nonce] > now
  }

  class NonceStore {
    var live: Live

    constructor ()
      ensures live == map[]
    {
      live := map[];
    }

    method Issue(now: int, nonce: string)
      modifies this
      ensures live == Issued(old(live), now, nonce)
    {
      live := map n | n in live && live[n] > now :: live[n];
      live := live[nonce := now + TTL];
    }

    /** A found entry is consumed, redeemable or not. */
    method Consume(now: int, nonce: string) returns (ok: bool)
      modifies this
      ensures ok <==> Redeems(old(live), now, nonce)
      ensures live == old(live) - {nonce}
    {
      if nonce in live {
        var exp := live[nonce];
        live := live - {nonce};
        return exp > now;
      }
      return false;
    }
  }

  // ---- runs --------------------------------------------------------------------------------------

  datatype Event = Issue(at: int, nonce: string) | Consume(at: int, nonce: string)

  function After(events: seq<Event>): Live {
    if events == [] then map[]
    else
      var live := After(events[..|events| - 1]);
      match events[|events| - 1]
      case Issue(at, nonce) => Issued(live, at, nonce)
      case Consume(_, nonce) => live - {nonce}
  }

  /** The same store without the sweep. */
  function AfterUnswept(events: seq<Event>): Live {
    if events == [] then map[]
    else
      var live := AfterUnswept(events[..|events| - 1]);
      match events[|events| - 1]
      case Issue(at, nonce) => live[nonce := at + TTL]
      case Consume(_, nonce) => live - {nonce}
  }

  /** The clock never goes back. */
  predicate Monotone(events: seq<Event>) {
    forall i, j :: 0 <= i < j < |events| ==> events[i].at <= events[j].at
  }

  /** The latest event about a nonce. */
  function LastAbout(events: seq<Event>, nonce: string): (r: int)
    ensures -1 <= r < |events|
    ensures r >= 0 ==> events[r].nonce == nonce
    ensures forall i :: r < i < |events| ==> events[i].nonce != nonce
  {
    if events == [] then -1
    else if events[|events| - 1].nonce == nonce then |events| - 1
    else LastAbout(events[..|events| - 1], nonce)
  }

  /** Redeemable by the book: issued less than a minute ago and not touched since. */
  predicate Outstanding(events: seq<Event>, now: int, nonce: string) {
    var last := LastAbout(events, nonce);
    last >= 0 && events[last].Issue? && now < events[last].at + 60
  }

  /** A later issue, at a time past the nonce's minute, that swept it away. */
  ghost predicate SweptAway(events: seq<Event>, nonce: string) {
    var last := LastAbout(events, nonce);
    last >= 0 && exists j :: last < j < |events| && events[j].Issue? && events[last].at + 60 <= events[j].at
  }

  lemma LastAboutSnoc(events: seq<Event>, e: Event, nonce: string)
    ensures LastAbout(events + [e], nonce) == if e.nonce == nonce then |events| else LastAbout(events, nonce)
  {
    assert (events + [e])[..|events|] == events;
  }

  lemma SweptAwaySnoc(events: seq<Event>, e: Event, nonce: string)
    ensures var last := LastAbout(events, nonce);
            SweptAway(events + [e], nonce) <==>
              && e.nonce != nonce && last >= 0
              && (SweptAway(events, nonce) || (e.Issue? && events[last].at + TTL <= e.at))
  {
    var all, last := events + [e], LastAbout(events, nonce);
    LastAboutSnoc(events, e, nonce);
    hide LastAbout;
    assert forall j :: 0 <= j < |events| ==> all[j] == events[j];
    if e.nonce != nonce && SweptAway(events, nonce) {
      var j :| last < j < |events| && events[j].Issue? && events[last].at + TTL <= events[j].at;
      assert all[j].Issue? && all[last].at + TTL <= all[j].at;
    }
    if e.nonce != nonce && last >= 0 && e.Issue? && events[last].at + TTL <= e.at {
      assert all[|events|] == e;
    }
  }

  /** Without the sweep a nonce is on file exactly if the latest event about it issued it. */
  lemma {:induction false} UnsweptByTheBook(events: seq<Event>, nonce: string)
    ensures var live, last := AfterUnswept(events), LastAbout(events, nonce);
            && (nonce in live <==> last >= 0 && events[last].Issue?)
            && (nonce in live ==> live[nonce] == events[last].at + TTL)
  {
    if events != [] {
      var init, e := events[..|events| - 1], events[|events| - 1];
      assert events == init + [e];
      UnsweptByTheBook(init, nonce);
      LastAboutSnoc(init, e, nonce);
      hide LastAbout;
    }
  }

  /** With the sweep it must also not have been swept away. */
  lemma {:induction false} SweptByTheBook(events: seq<Event>, nonce: string)
    ensures var live, last := After(events), LastAbout(events, nonce);
            && (nonce in live <==> last >= 0 && events[last].Issue? && !SweptAway(events, nonce))
            && (nonce in live ==> live[nonce] == events[last].at + TTL)
  {
    if events != [] {
      var init, e := events[..|events| - 1], events[|events| - 1];
      assert events == init + [e];
      SweptByTheBook(init, nonce);
      LastAboutSnoc(init, e, nonce);
      SweptAwaySnoc(init, e, nonce);
      hide LastAbout, SweptAway;
    }
  }

  /**
   When the sweep shows, whatever the clock does: exactly where a nonce that is still
   good was swept away by an issue at a time past its minute.
   */
  lemma SweepShowsExactly(events: seq<Event>, now: int, nonce: string)
    ensures Redeems(AfterUnswept(events), now, nonce) <==> Outstanding(events, now, nonce)
    ensures Redeems(After(events), now, nonce) <==> Outstanding(events, now, nonce) && !SweptAway(events, nonce)
    ensures (Redeems(After(events), now, nonce) <==> Redeems(AfterUnswept(events), now, nonce))
       <==> !(Outstanding(events, now, nonce) && SweptAway(events, nonce))
  {
    SweptByTheBook(events, nonce);
    UnsweptByTheBook(events, nonce);
    hide LastAbout, SweptAway, After, AfterUnswept;
  }

  /** A steady clock: what has been swept away was no longer good. */
  lemma SteadyClock(events: seq<Event>, k: nat, nonce: string)
    requires Monotone(events) && k < |events|
    ensures !(Outstanding(events[..k], events[k].at, nonce) && SweptAway(events[..k], nonce))
  {
    var past := events[..k];
    var last := LastAbout(past, nonce);
    hide LastAbout;
    if SweptAway(past, nonce) {
      var j :| last < j < k && past[j].Issue? && past[last].at + TTL <= past[j].at;
      assert past[j] == events[j];
    }
  }

  /** With a clock that never goes back, a nonce redeems exactly while it is outstanding. */
  lemma RedeemsExactly(events: seq<Event>, k: nat)
    requires Monotone(events) && k < |events|
    ensures Redeems(After(events[..k]), events[k].at, events[k].nonce)
       <==> Outstanding(events[..k], events[k].at, events[k].nonce)
  {
    hide *;
    SweepShowsExactly(events[..k], events[k].at, events[k].nonce);
    SteadyClock(events, k, events[k].nonce);
  }

  /** Then the sweep cannot be seen: every answer is that of a store that never sweeps. */
  lemma SweepIsUnobservable(events: seq<Event>, k: nat)
    requires Monotone(events) && k < |events|
    ensures Redeems(After(events[..k]), events[k].at, events[k].nonce)
       <==> Redeems(AfterUnswept(events[..k]), events[k].at, events[k].nonce)
  {
    hide *;
    SweepShowsExactly(events[..k], events[k].at, events[k].nonce);
    SteadyClock(events, k, events[k].nonce);
  }

  /** A nonce issued once is redeemed at most once, whatever the clock does. */
  lemma RedeemedOnce(events: seq<Event>, j: nat, k: nat)
    requires j < k < |events| && events[j].Consume? && events[k].Consume?
    requires events[j].nonce == events[k].nonce
    requires forall a, b :: 0 <= a < b < |events| && events[a].Issue? && events[b].Issue? ==> events[a].nonce != events[b].nonce
    ensures !(Redeems(After(events[..j]), events[j].at, events[j].nonce)
              && Redeems(After(events[..k]), events[k].at, events[k].nonce))
  {
    var nonce := events[j].nonce;
    SweepShowsExactly(events[..j], events[j].at, nonce);
    SweepShowsExactly(events[..k], events[k].at, nonce);
    hide After, AfterUnswept, Redeems, SweptAway;
    var a, b := LastAbout(events[..j], nonce), LastAbout(events[..k], nonce);
    hide LastAbout;
    assert events[..k][j] == events[j];
    assert a >= 0 ==> events[..j][a] == events[a];
    assert b >= 0 ==> events[..k][b] == events[b];
  }

  /** Without a steady clock the sweep shows: here the nonce was still good when asked for. */
  lemma ClockGoingBackShows(a: string, b: string)
    requires a != b
    ensures var events := [Issue(0, a), Issue(100, b)];
            !Redeems(After(events), 10, a) && Redeems(AfterUnswept(events), 10, a)
  {
    var events := [Issue(0, a), Issue(100, b)];
    assert events[..1] == [Issue(0, a)] && [Issue(0, a)][..0] == [];
    assert After([Issue(0, a)]) == Issued(map[], 0, a);
    assert AfterUnswept([Issue(0, a)]) == map[a := TTL];
  }
}
