/**
  The per-request decision of the catch-all middleware: reuse a live
  session whose server is up, else select a target by IP hash and bind the
  client to it, else answer 503.
 */
module Dispatcher {
  import opened Wrappers
  import opened Registry
  import opened Selector
  import opened Sessions

  datatype Decision =
    | Forward(server: nat, url: string)  // hand the request to the proxy with this target URL
    | Refuse                             // answer 503 "No available servers."

  /** The client holds a session that is live at `now` and whose server is up. */
  predicate CanReuse(targets: seq<Target>, store: Store, ip: string, now: nat)
  {
    ip in store && Live(store[ip], now) && IsUp(targets, store[ip].server)
  }

  /**
    Decides where the request of client `ip` arriving at `now` goes, and
    returns the session store as the request leaves it.
   */
  function Dispatch(targets: seq<Target>, store: Store, ip: string, now: nat): (r: (Decision, Store))
    ensures r.0.Refuse? <==> NoneUp(targets)
    ensures r.0.Forward? ==> IsUp(targets, r.0.server) && r.0.url == targets[r.0.server].url
    ensures r.0.Forward? ==> ip in r.1 && r.1[ip].server == r.0.server && Live(r.1[ip], now)
    ensures r.0.Refuse? && ip in r.1 ==> ip in store && r.1[ip] == store[ip]
    ensures forall k :: k != ip ==> (k in r.1 <==> k in store)
    ensures forall k :: k != ip && k in store ==> r.1[k] == store[k]
  {
    var lookup := GetSession(store, ip, now);
    if lookup.0.Some? && IsUp(targets, lookup.0.value.server) then
      var s := lookup.0.value.server;
      (Forward(s, targets[s].url), lookup.1)
    else
      match SelectTargetByIPHash(targets, ip)
      case None => (Refuse, lookup.1)
      case Some(i) => (Forward(i, targets[i].url), CreateSession(lookup.1, ip, i, now))
  }

  /**
    A live session on an up server is reused as it stands: the request goes
    to that server, whatever the hash would pick, and the store is left
    exactly as it was (the expiry is not extended).
   */
  lemma DispatchReusesLiveSession(targets: seq<Target>, store: Store, ip: string, now: nat)
    requires CanReuse(targets, store, ip, now)
    ensures Dispatch(targets, store, ip, now)
         == (Forward(store[ip].server, targets[store[ip].server].url), store)
  {
  }

  /**
    Without a reusable session, the hash selector decides: with no target up
    the answer is 503 and no session is written; otherwise the client is
    bound to the selected target for a full timeout and sent to it.
   */
  lemma DispatchSelectsFresh(targets: seq<Target>, store: Store, ip: string, now: nat)
    requires !CanReuse(targets, store, ip, now)
    ensures var r := Dispatch(targets, store, ip, now);
      match SelectTargetByIPHash(targets, ip)
      case None =>
        && r.0 == Refuse
        && (ip in r.1 ==> ip in store && Live(store[ip], now) && !IsUp(targets, store[ip].server))
      case Some(i) =>
        && r.0 == Forward(i, targets[i].url)
        && r.1[ip] == Session(i, now + SessionTimeout)
  {
  }

  /**
    Stickiness: once a request of `ip` was forwarded at `now`, every later
    request of `ip` before the session expires goes to the same server, as
    long as that server is up in the registry of the later request.
   */
  lemma StickyWhileLiveAndUp(targets: seq<Target>, later: seq<Target>, store: Store, ip: string, now: nat, t: nat)
    requires Dispatch(targets, store, ip, now).0.Forward?
    requires t < Dispatch(targets, store, ip, now).1[ip].expiresAt
    requires IsUp(later, Dispatch(targets, store, ip, now).0.server)
    ensures var first := Dispatch(targets, store, ip, now);
      Dispatch(later, first.1, ip, t) == (Forward(first.0.server, later[first.0.server].url), first.1)
  {
    var first := Dispatch(targets, store, ip, now);
    DispatchReusesLiveSession(later, first.1, ip, t);
  }

  /** Sessions keep naming registry positions across any number of requests. */
  lemma DispatchKeepsServersBelow(targets: seq<Target>, store: Store, ip: string, now: nat)
    requires ServersBelow(store, |targets|)
    ensures ServersBelow(Dispatch(targets, store, ip, now).1, |targets|)
  {
    var r := Dispatch(targets, store, ip, now);
    forall k | k in r.1
      ensures r.1[k].server < |targets|
    {
      if k != ip {
        assert r.1[k] == store[k];
      }
    }
  }

  /** The identity "1.2.3.4" hashes to 49 + 46 + 50 + 46 + 51 + 46 + 52 == 340. */
  lemma ExampleHash()
    ensures Hash("1.2.3.4") == 340
  {
    assert Hash("1") == 49 by { assert "1"[..0] == []; }
    assert Hash("1.") == 95 by { assert "1."[..1] == "1"; }
    assert Hash("1.2") == 145 by { assert "1.2"[..2] == "1."; }
    assert Hash("1.2.") == 191 by { assert "1.2."[..3] == "1.2"; }
    assert Hash("1.2.3") == 242 by { assert "1.2.3"[..4] == "1.2."; }
    assert Hash("1.2.3.") == 288 by { assert "1.2.3."[..5] == "1.2.3"; }
    assert "1.2.3.4"[..6] == "1.2.3.";
  }

  lemma ExampleUpIndices(a: string, b: string, c: string)
    ensures UpIndices([Target(a, Up, 1), Target(b, Up, 2), Target(c, Up, 2)]) == [0, 1, 2]
    ensures UpIndices([Target(a, Up, 1), Target(b, Down, 2), Target(c, Up, 2)]) == [0, 2]
  {
    var up := [Target(a, Up, 1), Target(b, Up, 2), Target(c, Up, 2)];
    assert EligibleFrom(up, {}, 3) == [];
    assert EligibleFrom(up, {}, 2) == [2];
    assert EligibleFrom(up, {}, 1) == [1, 2];
    var bDown := [Target(a, Up, 1), Target(b, Down, 2), Target(c, Up, 2)];
    assert EligibleFrom(bDown, {}, 3) == [];
    assert EligibleFrom(bDown, {}, 2) == [2];
    assert EligibleFrom(bDown, {}, 1) == [2];
  }

  /**
    Three targets, all up; the identity "1.2.3.4" hashes to 340, and
    340 mod 3 == 1 picks the second target. A second request inside the
    window is sent there again without reselection. Once that target is
    down, a third request picks among the other two (340 mod 2 == 0, the
    first target) and overwrites the session.
   */
  lemma ThreeTargetScenario(a: string, b: string, c: string, now: nat)
    ensures var up := [Target(a, Up, 1), Target(b, Up, 2), Target(c, Up, 2)];
      var first := Dispatch(up, map[], "1.2.3.4", now);
      && first.0 == Forward(1, b)
      && first.1 == map["1.2.3.4" := Session(1, now + SessionTimeout)]
      && var second := Dispatch(up, first.1, "1.2.3.4", now + 1000);
      && second == (Forward(1, b), first.1)
      && var bDown := up[1 := Target(b, Down, 2)];
      && var third := Dispatch(bDown, second.1, "1.2.3.4", now + 2000);
      && third.0 == Forward(0, a)
      && third.1 == map["1.2.3.4" := Session(0, now + 2000 + SessionTimeout)]
  {
    var ip := "1.2.3.4";
    ExampleHash();
    ExampleUpIndices(a, b, c);
    var up := [Target(a, Up, 1), Target(b, Up, 2), Target(c, Up, 2)];
    assert SelectTargetByIPHash(up, ip) == Some(1);
    var first := Dispatch(up, map[], ip, now);
    assert first.1 == map[ip := Session(1, now + SessionTimeout)];
    DispatchReusesLiveSession(up, first.1, ip, now + 1000);
    var bDown := up[1 := Target(b, Down, 2)];
    assert bDown == [Target(a, Up, 1), Target(b, Down, 2), Target(c, Up, 2)];
    assert SelectTargetByIPHash(bDown, ip) == Some(0);
    DispatchSelectsFresh(bDown, first.1, ip, now + 2000);
  }
}
