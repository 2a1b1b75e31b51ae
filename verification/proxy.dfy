/**
  Forwarding and the retry on a forwarding error. The forwarding library is
  not modelled: which target URLs cannot complete an exchange is an input
  set, fixed for the duration of one request, and the registry does not
  change while the request is retried.
 */
module Proxy {
  import opened Wrappers
  import opened Registry
  import opened Selector
  import opened Sessions
  import Dispatcher

  datatype Response =
    | Proxied(url: string)    // the exchange with this target completed
    | NoAvailableServers      // 503 "No available servers." from the dispatcher
    | AllServersUnavailable   // 503 "All servers are unavailable." from the error handler
    | OutOfFuel               // the modelled retry budget ran out while the retries went on

  /** The URL of the target the IP hash selects for `ip`, if any target is up. */
  function HashTargetUrl(targets: seq<Target>, ip: string): Option<string>
  {
    match SelectTargetByIPHash(targets, ip)
    case None => None
    case Some(i) => Some(targets[i].url)
  }

  /**
    The error handler as written: after a failed exchange it selects again
    by the client's IP hash over the same registry and forwards there,
    without any bound. `fuel` caps the number of attempts the model follows.
   */
  function ProxyAsWritten(targets: seq<Target>, ip: string, url: string, unreachable: set<string>, fuel: nat): (r: Response)
    ensures fuel > 0 && url !in unreachable ==> r == Proxied(url)
    ensures fuel > 0 && url in unreachable && NoneUp(targets) ==> r == AllServersUnavailable
    ensures r.Proxied? ==> r.url !in unreachable
    ensures r.Proxied? ==> r.url == url || HashTargetUrl(targets, ip) == Some(r.url)
    ensures r.AllServersUnavailable? ==> url in unreachable && NoneUp(targets)
    ensures !r.NoAvailableServers?
    decreases fuel
  {
    if fuel == 0 then OutOfFuel
    else if url !in unreachable then Proxied(url)
    else
      match SelectTargetByIPHash(targets, ip)
      case None => AllServersUnavailable
      case Some(i) => ProxyAsWritten(targets, ip, targets[i].url, unreachable, fuel - 1)
  }

  /**
    When the target the hash selects cannot be reached, the handler as
    written retries that same target again and again: no budget of attempts,
    however large, ends with a response.
   */
  lemma {:induction false} AsWrittenRetriesForever(targets: seq<Target>, ip: string, url: string, unreachable: set<string>, fuel: nat)
    requires url in unreachable
    requires SelectTargetByIPHash(targets, ip).Some?
    requires targets[SelectTargetByIPHash(targets, ip).value].url in unreachable
    ensures ProxyAsWritten(targets, ip, url, unreachable, fuel) == OutOfFuel
    decreases fuel
  {
    if fuel > 0 {
      var i := SelectTargetByIPHash(targets, ip).value;
      AsWrittenRetriesForever(targets, ip, targets[i].url, unreachable, fuel - 1);
    }
  }

  /** The positions of the up targets whose URL has not been tried yet. */
  function Untried(targets: seq<Target>, tried: set<string>): set<nat>
  {
    set i: nat | i < |targets| && Eligible(targets, tried, i)
  }

  lemma {:induction false} SubsetCardinality(a: set<nat>, b: set<nat>)
    requires a <= b
    ensures |a| <= |b|
    decreases |a|
  {
    if a != {} {
      var x :| x in a;
      SubsetCardinality(a - {x}, b - {x});
    }
  }

  /**
    Trying target `i` removes it, and possibly more, from the untried
    targets.
   */
  lemma TryingShrinksUntried(targets: seq<Target>, tried: set<string>, i: nat)
    requires i in Untried(targets, tried)
    ensures Untried(targets, tried + {targets[i].url}) < Untried(targets, tried)
    ensures |Untried(targets, tried + {targets[i].url})| < |Untried(targets, tried)|
  {
    var before := Untried(targets, tried);
    var after := Untried(targets, tried + {targets[i].url});
    assert after <= before - {i};
    SubsetCardinality(after, before - {i});
  }

  /**
    The retry the error handler evidently intends: after a failed attempt,
    select by IP hash among the up targets not tried yet, and answer
    "all servers are unavailable" once none is left. Returns the response
    and the URLs attempted, in order.
   */
  function Failover(targets: seq<Target>, ip: string, url: string, unreachable: set<string>, tried: set<string>)
    : (r: (Response, seq<string>))
    requires url !in tried
    ensures r.0.Proxied? || r.0.AllServersUnavailable?
    ensures |r.1| >= 1 && r.1[0] == url
    ensures r.0.Proxied? ==> r.0.url == r.1[|r.1| - 1] && r.0.url !in unreachable
    ensures forall k :: 0 <= k < |r.1| - 1 ==> r.1[k] in unreachable
    ensures r.0.AllServersUnavailable? ==>
      url in unreachable && forall i: nat :: Eligible(targets, tried, i) ==> targets[i].url in unreachable
    ensures forall k :: 0 <= k < |r.1| ==> r.1[k] !in tried
    ensures forall k, l :: 0 <= k < l < |r.1| ==> r.1[k] != r.1[l]
    ensures |r.1| <= 1 + |Untried(targets, tried + {url})|
    decreases Untried(targets, tried + {url})
  {
    if url !in unreachable then (Proxied(url), [url])
    else
      var tried' := tried + {url};
      match PickByHash(ip, Candidates(targets, tried'))
      case None =>
        assert forall i: nat :: Eligible(targets, tried, i) && targets[i].url != url ==> Eligible(targets, tried', i);
        assert forall i: nat :: Eligible(targets, tried', i) ==> i in Candidates(targets, tried');
        (AllServersUnavailable, [url])
      case Some(i) =>
        assert i in Untried(targets, tried');
        TryingShrinksUntried(targets, tried', i);
        var rest := Failover(targets, ip, targets[i].url, unreachable, tried');
        (rest.0, [url] + rest.1)
  }

  /** `u` is the URL of an up target that is not among `tried`. */
  ghost predicate UntriedUpUrl(targets: seq<Target>, tried: set<string>, u: string)
  {
    exists i: nat :: Eligible(targets, tried, i) && targets[i].url == u
  }

  /** Every attempt after the first in `attempts` is an untried up target. */
  ghost predicate RetriesUntriedUp(targets: seq<Target>, tried: set<string>, attempts: seq<string>)
  {
    forall k :: 1 <= k < |attempts| ==> UntriedUpUrl(targets, tried, attempts[k])
  }

  /**
    Every attempt after the first goes to an up target that had not been
    tried before the failover started.
   */
  lemma {:induction false} FailoverRetriesUntriedUpTargets(
    targets: seq<Target>, ip: string, url: string, unreachable: set<string>, tried: set<string>)
    requires url !in tried
    ensures RetriesUntriedUp(targets, tried, Failover(targets, ip, url, unreachable, tried).1)
    decreases Untried(targets, tried + {url})
  {
    if url in unreachable {
      var tried' := tried + {url};
      match PickByHash(ip, Candidates(targets, tried'))
      case None =>
      case Some(i) =>
        assert i in Untried(targets, tried');
        TryingShrinksUntried(targets, tried', i);
        var rest := Failover(targets, ip, targets[i].url, unreachable, tried');
        FailoverRetriesUntriedUpTargets(targets, ip, targets[i].url, unreachable, tried');
        var attempts := [url] + rest.1;
        assert Failover(targets, ip, url, unreachable, tried).1 == attempts;
        forall k | 1 <= k < |attempts|
          ensures UntriedUpUrl(targets, tried, attempts[k])
        {
          if k == 1 {
            assert Eligible(targets, tried, i) && targets[i].url == attempts[k];
          } else {
            assert UntriedUpUrl(targets, tried', rest.1[k - 1]);
            var j: nat :| Eligible(targets, tried', j) && targets[j].url == rest.1[k - 1];
            assert Eligible(targets, tried, j);
          }
        }
    }
  }

  /**
    A request end to end with the corrected retry: the dispatch decision,
    then forwarding with the bounded failover. Returns the response and the
    session store.
   */
  function Serve(targets: seq<Target>, store: Store, ip: string, now: nat, unreachable: set<string>): (r: (Response, Store))
    ensures r.0.NoAvailableServers? <==> NoneUp(targets)
    ensures r.0.Proxied? ==> r.0.url !in unreachable
    ensures r.0.Proxied? ==> exists i: nat :: IsUp(targets, i) && targets[i].url == r.0.url
    ensures (exists i: nat :: Eligible(targets, unreachable, i)) ==> r.0.Proxied?
    ensures !r.0.OutOfFuel?
  {
    var d := Dispatcher.Dispatch(targets, store, ip, now);
    match d.0
    case Refuse => (NoAvailableServers, d.1)
    case Forward(s, url) =>
      var f := Failover(targets, ip, url, unreachable, {});
      FailoverRetriesUntriedUpTargets(targets, ip, url, unreachable, {});
      assert f.0.Proxied? ==> exists i: nat :: IsUp(targets, i) && targets[i].url == f.0.url by {
        if f.0.Proxied? {
          if |f.1| == 1 {
            assert IsUp(targets, s) && targets[s].url == f.0.url;
          } else {
            assert UntriedUpUrl(targets, {}, f.1[|f.1| - 1]);
            var i: nat :| Eligible(targets, {}, i) && targets[i].url == f.1[|f.1| - 1];
            assert IsUp(targets, i);
          }
        }
      }
      (f.0, d.1)
  }

  /**
    A request end to end as written: the dispatch decision, then forwarding
    with the unbounded retry, followed for at most `fuel` attempts. The
    registry is fixed during the request, so the error handler's "all
    servers are unavailable" answer is never reached.
   */
  function ServeAsWritten(targets: seq<Target>, store: Store, ip: string, now: nat, unreachable: set<string>, fuel: nat)
    : (r: (Response, Store))
    ensures r.0.NoAvailableServers? <==> NoneUp(targets)
    ensures r.0.Proxied? ==> r.0.url !in unreachable
    ensures !r.0.AllServersUnavailable?
    ensures r.1 == Dispatcher.Dispatch(targets, store, ip, now).1
  {
    var d := Dispatcher.Dispatch(targets, store, ip, now);
    match d.0
    case Refuse => (NoAvailableServers, d.1)
    case Forward(_, url) => (ProxyAsWritten(targets, ip, url, unreachable, fuel), d.1)
  }

  /**
    Starting from an up target, the failover makes at most one attempt per
    up target.
   */
  lemma FailoverAttemptsBounded(targets: seq<Target>, ip: string, s: nat, unreachable: set<string>)
    requires IsUp(targets, s)
    ensures |Failover(targets, ip, targets[s].url, unreachable, {}).1| <= |Untried(targets, {})|
  {
    assert s in Untried(targets, {});
    TryingShrinksUntried(targets, {}, s);
  }

  /**
    Two up targets "A" and "B"; the identity "a" hashes to 97, and
    97 mod 2 == 1 selects "B", which cannot be reached. The handler as
    written retries "B" for ever, although "A" is reachable; the failover
    reaches "A" on its second attempt.
   */
  lemma RetryCounterexample(fuel: nat)
    ensures ProxyAsWritten([Target("A", Up, 1), Target("B", Up, 1)], "a", "B", {"B"}, fuel) == OutOfFuel
    ensures Failover([Target("A", Up, 1), Target("B", Up, 1)], "a", "B", {"B"}, {}) == (Proxied("A"), ["B", "A"])
  {
    var targets := [Target("A", Up, 1), Target("B", Up, 1)];
    assert Hash("a") == 97 by { assert "a"[..0] == []; }
    assert EligibleFrom(targets, {}, 2) == [];
    assert EligibleFrom(targets, {}, 1) == [1];
    assert UpIndices(targets) == [0, 1];
    assert SelectTargetByIPHash(targets, "a") == Some(1);
    AsWrittenRetriesForever(targets, "a", "B", {"B"}, fuel);
    assert EligibleFrom(targets, {"B"}, 2) == [];
    assert EligibleFrom(targets, {"B"}, 1) == [];
    assert Candidates(targets, {"B"}) == [0];
    assert PickByHash("a", Candidates(targets, {"B"})) == Some(0);
    assert Failover(targets, "a", "A", {"B"}, {"B"}) == (Proxied("A"), ["A"]);
    var none: set<string> := {};
    assert none + {"B"} == {"B"};
    var rest := Failover(targets, "a", "A", {"B"}, none + {"B"});
    assert rest == (Proxied("A"), ["A"]);
    assert Failover(targets, "a", "B", {"B"}, none) == (rest.0, ["B"] + rest.1);
    assert ["B"] + rest.1 == ["B", "A"];
    assert Failover(targets, "a", "B", {"B"}, none) == (Proxied("A"), ["B", "A"]);
  }

  /**
    The same registry and client, for a whole first request with an empty
    session store: as written the request never gets an answer, with the
    corrected retry it is delivered to "A".
   */
  lemma ServeRetryCounterexample(now: nat, fuel: nat)
    ensures ServeAsWritten([Target("A", Up, 1), Target("B", Up, 1)], map[], "a", now, {"B"}, fuel).0 == OutOfFuel
    ensures Serve([Target("A", Up, 1), Target("B", Up, 1)], map[], "a", now, {"B"}).0 == Proxied("A")
  {
    var targets := [Target("A", Up, 1), Target("B", Up, 1)];
    RetryCounterexample(fuel);
    assert Hash("a") == 97 by { assert "a"[..0] == []; }
    assert EligibleFrom(targets, {}, 2) == [];
    assert EligibleFrom(targets, {}, 1) == [1];
    assert SelectTargetByIPHash(targets, "a") == Some(1);
    Dispatcher.DispatchSelectsFresh(targets, map[], "a", now);
    assert Dispatcher.Dispatch(targets, map[], "a", now).0 == Dispatcher.Forward(1, "B");
  }
}
