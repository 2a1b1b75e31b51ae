/**
  The session store: client identity to `{server, expiresAt}`, with an
  absolute lifetime fixed at creation and lazy purging on lookup. The clock
  is the explicit `now` parameter, in milliseconds.
 */
module Sessions {
  import opened Wrappers

  /** 360 seconds, in milliseconds. */
  const SessionTimeout: nat := 360 * 1000

  /** `server` is the position of the target in the registry. */
  datatype Session = Session(server: nat, expiresAt: nat)

  type Store = map<string, Session>

  /** A session is live while its expiry lies strictly after `now`. */
  predicate Live(s: Session, now: nat)
  {
    s.expiresAt > now
  }

  /**
    Binds `ip` to `server` for a full timeout from `now`, replacing whatever
    was stored for `ip`; every other entry stays as it was.
   */
  function CreateSession(store: Store, ip: string, server: nat, now: nat): (r: Store)
    ensures ip in r && r[ip].server == server && r[ip].expiresAt == now + SessionTimeout
    ensures forall k :: k != ip ==> (k in r <==> k in store)
    ensures forall k :: k != ip && k in store ==> r[k] == store[k]
  {
    store[ip := Session(server, now + SessionTimeout)]
  }

  /**
    Returns the session of `ip` when one is stored and live at `now`, and the
    store unchanged. Otherwise returns `None` and a store without an entry
    for `ip` (an expired entry is purged); other entries stay as they were.
   */
  function GetSession(store: Store, ip: string, now: nat): (r: (Option<Session>, Store))
    ensures r.0.Some? <==> ip in store && Live(store[ip], now)
    ensures r.0.Some? ==> r.0.value == store[ip] && r.1 == store
    ensures r.0.None? ==> ip !in r.1
    ensures forall k :: k != ip ==> (k in r.1 <==> k in store)
    ensures forall k :: k != ip && k in store ==> r.1[k] == store[k]
  {
    if ip in store && store[ip].expiresAt > now then (Some(store[ip]), store)
    else if ip in store then (None, store - {ip})
    else (None, store)
  }

  /**
    A session created at time `t` is returned by every lookup before
    `t + SessionTimeout` and by none from then on.
   */
  lemma SessionLifetime(store: Store, ip: string, server: nat, t: nat, now: nat)
    ensures var found := GetSession(CreateSession(store, ip, server, t), ip, now).0;
      found.Some? <==> now < t + SessionTimeout
    ensures var found := GetSession(CreateSession(store, ip, server, t), ip, now).0;
      found.Some? ==> found.value == Session(server, t + SessionTimeout)
  {
  }

  /** Looking up twice at the same instant changes nothing the second time. */
  lemma GetSessionIdempotent(store: Store, ip: string, now: nat)
    ensures var r := GetSession(store, ip, now);
      GetSession(r.1, ip, now) == r
  {
  }

  /**
    A lookup that finds nothing leaves no entry behind, so the next lookup,
    at any instant, finds nothing either.
   */
  lemma GetSessionAbsentStaysAbsent(store: Store, ip: string, now: nat, later: nat)
    requires GetSession(store, ip, now).0.None?
    ensures GetSession(GetSession(store, ip, now).1, ip, later).0.None?
  {
  }

  /** Every stored session names one of the first `n` registry positions. */
  predicate ServersBelow(store: Store, n: nat)
  {
    forall ip :: ip in store ==> store[ip].server < n
  }

  lemma StoreOperationsKeepServersBelow(store: Store, ip: string, server: nat, now: nat, n: nat)
    requires ServersBelow(store, n)
    ensures ServersBelow(GetSession(store, ip, now).1, n)
    ensures server < n ==> ServersBelow(CreateSession(store, ip, server, now), n)
  {
  }
}
