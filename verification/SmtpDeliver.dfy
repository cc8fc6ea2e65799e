/**
 Delivering one message to many recipients: one connection through the relay host, or
 one for each recipient domain, with the first error kept.

 A connection is whatever `Send` says came of it.
 */
module SmtpDeliver {
  import opened Wrappers
  import opened Ordering
  import opened Text

  datatype DeliverError =
    | NoRecipients
    | InvalidRecipient(addr: string)
    | NoMx(domain: string)
    | Failed(target: string, cause: string)

  /** What one connection to a target with these recipients comes to. */
  type Send = (string, seq<string>) -> Option<string>

  /** The mail exchangers of a domain, best first. */
  type Mx = string -> seq<string>

  /** The part after the last @. */
  function DomainOf(addr: string): Option<string> {
    if addr == "" then None
    else match DomainOf(addr[1..])
      case Some(d) => Some(d)
      case None => if addr[0] == '@' then Some(addr[1..]) else None
  }

  function FirstInvalid(to: seq<string>): Option<string> {
    if to == [] then None
    else if DomainOf(to[0]).None? then Some(to[0])
    else FirstInvalid(to[1..])
  }

  /** The recipients of one domain, in the order given. */
  function GroupOf(to: seq<string>, domain: string): seq<string> {
    if to == [] then []
    else
      var last := to[|to| - 1];
      GroupOf(to[..|to| - 1], domain) + if DomainOf(last) == Some(domain) then [last] else []
  }

  function Domains(to: seq<string>): set<string> {
    set i | 0 <= i < |to| && DomainOf(to[i]).Some? :: DomainOf(to[i]).value
  }

  lemma DomainsSnoc(to: seq<string>, addr: string)
    requires DomainOf(addr).Some?
    ensures Domains(to + [addr]) == Domains(to) + {DomainOf(addr).value}
  {
    hide DomainOf;
    var all := to + [addr];
    forall d | d in Domains(to) ensures d in Domains(all) {
      var i :| 0 <= i < |to| && DomainOf(to[i]) == Some(d);
      assert all[i] == to[i];
    }
    assert all[|to|] == addr;
  }

  lemma {:induction false} EmptyGroup(to: seq<string>, domain: string)
    requires domain !in Domains(to)
    ensures GroupOf(to, domain) == []
  {
    hide DomainOf;
    if to != [] {
      var init := to[..|to| - 1];
      forall d | d in Domains(init) ensures d in Domains(to) {
        var i :| 0 <= i < |init| && DomainOf(init[i]) == Some(d);
        assert to[i] == init[i];
      }
      EmptyGroup(init, domain);
    }
  }

  /** An address without a domain abandons everything, even what is grouped already. */
  method GroupByDomain(to: seq<string>) returns (r: Result<map<string, seq<string>>, DeliverError>)
    ensures match FirstInvalid(to)
            case Some(addr) => r == Err(InvalidRecipient(addr))
            case None => r.Ok? && r.value.Keys == Domains(to) && forall d :: d in r.value ==> r.value[d] == GroupOf(to, d)
  {
    hide DomainOf;
    var byDomain: map<string, seq<string>> := map[];
    for i := 0 to |to|
      invariant FirstInvalid(to) == FirstInvalid(to[i..])
      invariant byDomain.Keys == Domains(to[..i])
      invariant forall d :: d in byDomain ==> byDomain[d] == GroupOf(to[..i], d)
    {
      assert to[i..][0] == to[i] && to[i..][1..] == to[i + 1..];
      var domain := DomainOf(to[i]);
      if domain.None? {
        return Err(InvalidRecipient(to[i]));
      }
      assert to[..i + 1] == to[..i] + [to[i]] && to[..i + 1][..i] == to[..i];
      DomainsSnoc(to[..i], to[i]);
      if domain.value !in byDomain {
        EmptyGroup(to[..i], domain.value);
      }
      var before := if domain.value in byDomain then byDomain[domain.value] else [];
      byDomain := byDomain[domain.value := before + [to[i]]];
    }
    assert to[..|to|] == to;
    r := Ok(byDomain);
  }

  function TrimDots(host: string): string {
    if host != "" && host[|host| - 1] == '.' then TrimDots(host[..|host| - 1]) else host
  }

  function Target(host: string): string {
    TrimDots(host) + ":25"
  }

  /** One connection for each domain that has an exchanger. */
  function Connections(to: seq<string>, domains: seq<string>, mx: Mx): seq<(string, seq<string>)> {
    if domains == [] then []
    else
      var d := domains[|domains| - 1];
      Connections(to, domains[..|domains| - 1], mx) + if mx(d) == [] then [] else [(Target(mx(d)[0]), GroupOf(to, d))]
  }

  function DomainError(to: seq<string>, d: string, mx: Mx, send: Send): Option<DeliverError> {
    if mx(d) == [] then Some(NoMx(d))
    else match send(Target(mx(d)[0]), GroupOf(to, d))
      case None => None
      case Some(cause) => Some(Failed(Target(mx(d)[0]), cause))
  }

  function FirstError(to: seq<string>, domains: seq<string>, mx: Mx, send: Send): Option<DeliverError> {
    if domains == [] then None
    else
      match FirstError(to, domains[..|domains| - 1], mx, send)
      case Some(e) => Some(e)
      case None => DomainError(to, domains[|domains| - 1], mx, send)
  }

  method Deliver(relay: Option<string>, mx: Mx, send: Send, to: seq<string>)
    returns (error: Option<DeliverError>, made: seq<(string, seq<string>)>)
    ensures to == [] ==> error == Some(NoRecipients) && made == []
    ensures to != [] && relay.Some? ==>
              && made == [(relay.value, to)]
              && error == match send(relay.value, to) case None => None case Some(cause) => Some(Failed(relay.value, cause))
    ensures to != [] && relay.None? && FirstInvalid(to).Some? ==>
              made == [] && error == Some(InvalidRecipient(FirstInvalid(to).value))
    ensures to != [] && relay.None? && FirstInvalid(to).None? ==>
              && made == Connections(to, Sorted(Domains(to)), mx)
              && error == FirstError(to, Sorted(Domains(to)), mx, send)
  {
    hide GroupOf, Domains, FirstInvalid, Target, Sorted;
    made := [];
    if to == [] {
      return Some(NoRecipients), [];
    }
    if relay.Some? {
      var cause := send(relay.value, to);
      return match cause case None => None case Some(c) => Some(Failed(relay.value, c)), [(relay.value, to)];
    }
    var grouped := GroupByDomain(to);
    if grouped.Err? {
      return Some(grouped.error), [];
    }
    var byDomain := grouped.value;
    var domains := Sorted(byDomain.Keys);
    error := None;
    for i := 0 to |domains|
      invariant made == Connections(to, domains[..i], mx)
      invariant error == FirstError(to, domains[..i], mx, send)
    {
      assert domains[..i + 1][..i] == domains[..i];
      var d := domains[i];
      assert d in domains;
      var hosts := mx(d);
      if hosts == [] {
        error := if error.None? then Some(NoMx(d)) else error;
        continue;
      }
      var target := Target(hosts[0]);
      made := made + [(target, byDomain[d])];
      var cause := send(target, byDomain[d]);
      if cause.Some? {
        error := if error.None? then Some(Failed(target, cause.value)) else error;
      }
    }
    assert domains[..|domains|] == domains;
  }

  // ---- nobody is left out, nobody is sent to twice -----------------------------------------------------

  function AllGroups(to: seq<string>, domains: seq<string>): seq<string> {
    if domains == [] then [] else AllGroups(to, domains[..|domains| - 1]) + GroupOf(to, domains[|domains| - 1])
  }

  predicate Distinct(domains: seq<string>) {
    forall i, j :: 0 <= i < j < |domains| ==> domains[i] != domains[j]
  }

  lemma GroupSnoc(to: seq<string>, addr: string, domain: string)
    ensures GroupOf(to + [addr], domain) == GroupOf(to, domain) + if DomainOf(addr) == Some(domain) then [addr] else []
  {
    assert (to + [addr])[..|to|] == to;
  }

  lemma {:induction false} GroupsSnoc(to: seq<string>, addr: string, domains: seq<string>)
    requires Distinct(domains) && DomainOf(addr).Some?
    ensures multiset(AllGroups(to + [addr], domains))
         == multiset(AllGroups(to, domains)) + if DomainOf(addr).value in domains then multiset{addr} else multiset{}
    decreases |domains|
  {
    hide DomainOf, GroupOf;
    if domains != [] {
      var init, last := domains[..|domains| - 1], domains[|domains| - 1];
      GroupsSnoc(to, addr, init);
      GroupSnoc(to, addr, last);
      assert domains == init + [last];
      assert last !in init by {
        forall i | 0 <= i < |init| ensures init[i] != last {
          assert domains[i] != domains[|domains| - 1];
        }
      }
    }
  }

  lemma {:induction false} NoGroups(domains: seq<string>)
    ensures AllGroups([], domains) == []
  {
    if domains != [] {
      NoGroups(domains[..|domains| - 1]);
    }
  }

  lemma {:induction false} GroupsHoldAll(to: seq<string>, domains: seq<string>)
    requires Distinct(domains) && FirstInvalid(to) == None
    requires forall i :: 0 <= i < |to| ==> DomainOf(to[i]).Some? && DomainOf(to[i]).value in domains
    ensures multiset(AllGroups(to, domains)) == multiset(to)
    decreases |to|
  {
    hide DomainOf, FirstInvalid;
    if to == [] {
      NoGroups(domains);
    } else {
      var init, last := to[..|to| - 1], to[|to| - 1];
      assert to == init + [last];
      ValidPrefix(init, last);
      GroupsHoldAll(init, domains);
      GroupsSnoc(init, last, domains);
    }
  }

  lemma {:induction false} ValidPrefix(to: seq<string>, last: string)
    requires FirstInvalid(to + [last]) == None
    ensures FirstInvalid(to) == None
  {
    hide DomainOf;
    if to != [] {
      assert (to + [last])[1..] == to[1..] + [last];
      ValidPrefix(to[1..], last);
    }
  }

  lemma {:induction false} AllValid(to: seq<string>, i: nat)
    requires FirstInvalid(to) == None && i < |to|
    ensures DomainOf(to[i]).Some? && DomainOf(to[i]).value in Domains(to)
  {
    hide DomainOf;
    ValidAt(to, i);
  }

  lemma {:induction false} ValidAt(to: seq<string>, i: nat)
    requires FirstInvalid(to) == None && i < |to|
    ensures DomainOf(to[i]).Some?
  {
    hide DomainOf;
    if i > 0 {
      ValidAt(to[1..], i - 1);
    }
  }

  /** The groups, put together, are the recipients: each one once for each time it was given. */
  lemma GroupsPartition(to: seq<string>)
    requires FirstInvalid(to) == None
    ensures multiset(AllGroups(to, Sorted(Domains(to)))) == multiset(to)
  {
    var domains := Sorted(Domains(to));
    hide DomainOf, FirstInvalid, AllGroups, Domains;
    forall i, j | 0 <= i < j < |domains| ensures domains[i] != domains[j] {
      LessIsStrict(domains[i], domains[j]);
    }
    forall i | 0 <= i < |to| ensures DomainOf(to[i]).Some? && DomainOf(to[i]).value in domains {
      AllValid(to, i);
    }
    GroupsHoldAll(to, domains);
  }

  /** No error comes back exactly when every domain has an exchanger and every connection worked. */
  lemma {:induction false} NoErrorExactly(to: seq<string>, domains: seq<string>, mx: Mx, send: Send)
    ensures FirstError(to, domains, mx, send) == None <==>
              forall i :: 0 <= i < |domains| ==> DomainError(to, domains[i], mx, send) == None
  {
    hide DomainError;
    if domains != [] {
      var init, last := domains[..|domains| - 1], domains[|domains| - 1];
      NoErrorExactly(to, init, mx, send);
      assert forall i :: 0 <= i < |init| ==> init[i] == domains[i];
      assert domains == init + [last];
    }
  }

  // ---- who is sent what, and where --------------------------------------------------------------------------

  /** A domain is what stands after the last @. */
  lemma {:induction false} DomainExactly(addr: string, local: string, domain: string)
    ensures addr == local + "@" + domain && NoChar(domain, '@') ==> DomainOf(addr) == Some(domain)
    ensures NoChar(addr, '@') <==> DomainOf(addr) == None
    decreases |addr|
  {
    if addr != "" {
      DomainExactly(addr[1..], if local != "" then local[1..] else "", domain);
      if addr == local + "@" + domain && NoChar(domain, '@') {
        if local == "" {
          assert addr[1..] == domain;
        } else {
          assert addr[1..] == local[1..] + "@" + domain;
        }
      }
    }
  }

  predicate AllDots(s: string) {
    forall i :: 0 <= i < |s| ==> s[i] == '.'
  }

  /** The first exchanger of the list, without the dots that make its name absolute, on port 25. */
  ghost predicate BestTarget(hosts: seq<string>, target: string) {
    hosts != [] && exists host, dots :: Absolute(hosts[0], host, dots) && target == host + ":25"
  }

  predicate Absolute(name: string, host: string, dots: string) {
    name == host + dots && AllDots(dots) && (host != "" ==> host[|host| - 1] != '.')
  }

  lemma {:induction false} TrimsDots(host: string, dots: string)
    requires AllDots(dots) && (host != "" ==> host[|host| - 1] != '.')
    ensures TrimDots(host + dots) == host
    decreases |dots|
  {
    if dots == "" {
      assert host + dots == host;
    } else {
      TrimsDots(host, dots[..|dots| - 1]);
      assert (host + dots)[..|host + dots| - 1] == host + dots[..|dots| - 1];
    }
  }

  lemma {:induction false} DotsSplit(name: string) returns (dots: string)
    ensures Absolute(name, TrimDots(name), dots)
  {
    if name != "" && name[|name| - 1] == '.' {
      var less := DotsSplit(name[..|name| - 1]);
      dots := less + ".";
      assert name == name[..|name| - 1] + ".";
      assert name[..|name| - 1] + "." == TrimDots(name) + dots;
    } else {
      dots := "";
      assert name == name + dots;
    }
  }

  lemma TargetExactly(hosts: seq<string>, target: string)
    requires hosts != []
    ensures BestTarget(hosts, target) <==> target == Target(hosts[0])
  {
    var dots := DotsSplit(hosts[0]);
    if BestTarget(hosts, target) {
      var host, dots' :| Absolute(hosts[0], host, dots') && target == host + ":25";
      TrimsDots(host, dots');
    }
    hide TrimDots;
  }

  /** The domains that have an exchanger, in order. */
  function Reachable(domains: seq<string>, mx: Mx): (r: seq<string>)
    ensures forall d :: d in r <==> d in domains && mx(d) != []
  {
    if domains == [] then []
    else
      var last := domains[|domains| - 1];
      assert domains == domains[..|domains| - 1] + [last];
      Reachable(domains[..|domains| - 1], mx) + if mx(last) == [] then [] else [last]
  }

  lemma {:induction false} ReachableAscends(domains: seq<string>, mx: Mx)
    requires Ascending(domains)
    ensures Ascending(Reachable(domains, mx))
  {
    if domains != [] {
      var init, last := domains[..|domains| - 1], domains[|domains| - 1];
      ReachableAscends(init, mx);
      var r := Reachable(init, mx);
      forall i | 0 <= i < |r| ensures Less(r[i], last) {
        assert r[i] in init;
        var k :| 0 <= k < |init| && init[k] == r[i];
        assert Less(domains[k], domains[|domains| - 1]);
      }
    }
  }

  /** One connection for each reachable domain, in order: to its best exchanger, with its recipients. */
  lemma {:induction false} ConnectionsExactly(to: seq<string>, domains: seq<string>, mx: Mx)
    ensures var made, reached := Connections(to, domains, mx), Reachable(domains, mx);
            && |made| == |reached|
            && forall i :: 0 <= i < |made| ==> BestTarget(mx(reached[i]), made[i].0) && made[i].1 == GroupOf(to, reached[i])
  {
    hide GroupOf, Target, BestTarget;
    if domains != [] {
      ConnectionsExactly(to, domains[..|domains| - 1], mx);
      var d := domains[|domains| - 1];
      if mx(d) != [] {
        TargetExactly(mx(d), Target(mx(d)[0]));
      }
    }
  }

  /** How a domain fails: it has no exchanger, or its connection comes back with a cause. */
  ghost predicate Fails(to: seq<string>, d: string, mx: Mx, send: Send, e: DeliverError) {
    if mx(d) == [] then e == NoMx(d)
    else e.Failed? && BestTarget(mx(d), e.target) && send(e.target, GroupOf(to, d)) == Some(e.cause)
  }

  lemma DomainErrorExactly(to: seq<string>, d: string, mx: Mx, send: Send, e: DeliverError)
    ensures DomainError(to, d, mx, send) == Some(e) <==> Fails(to, d, mx, send, e)
  {
    if mx(d) != [] {
      TargetExactly(mx(d), Target(mx(d)[0]));
      if e.Failed? {
        TargetExactly(mx(d), e.target);
      }
    }
    hide GroupOf, Target, BestTarget;
  }

  ghost predicate FailsFirst(to: seq<string>, domains: seq<string>, mx: Mx, send: Send, i: nat, e: DeliverError) {
    && i < |domains| && Fails(to, domains[i], mx, send, e)
    && forall j, other :: 0 <= j < i ==> !Fails(to, domains[j], mx, send, other)
  }

  /** The error that comes back is that of the first domain to fail; the others are tried all the same. */
  lemma {:induction false} FirstErrorExactly(to: seq<string>, domains: seq<string>, mx: Mx, send: Send)
    ensures forall i: nat, e :: FailsFirst(to, domains, mx, send, i, e) ==> FirstError(to, domains, mx, send) == Some(e)
    ensures FirstError(to, domains, mx, send) == None <==>
              forall i, e :: 0 <= i < |domains| ==> !Fails(to, domains[i], mx, send, e)
  {
    hide DomainError, Fails;
    if domains != [] {
      var init, last := domains[..|domains| - 1], domains[|domains| - 1];
      assert domains == init + [last];
      FirstErrorExactly(to, init, mx, send);
      forall e ensures DomainError(to, last, mx, send) == Some(e) <==> Fails(to, last, mx, send, e) {
        DomainErrorExactly(to, last, mx, send, e);
      }
      assert forall i :: 0 <= i < |init| ==> init[i] == domains[i];
      forall i: nat, e | FailsFirst(to, domains, mx, send, i, e) ensures FirstError(to, domains, mx, send) == Some(e) {
        if i < |init| {
          assert FailsFirst(to, init, mx, send, i, e);
        } else {
          assert domains[i] == last;
        }
      }
      if i, e :| 0 <= i < |init| && Fails(to, init[i], mx, send, e) {
        assert Fails(to, domains[i], mx, send, e);
      }
      if DomainError(to, last, mx, send).Some? {
        assert Fails(to, domains[|init|], mx, send, DomainError(to, last, mx, send).value);
      }
    }
  }
}
