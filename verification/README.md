# Sticky IP-hash load balancer — Dafny model

A model of the decision logic of a small reverse-proxy load balancer
(`api/index.js`). The balancer has five pieces:

- a fixed, ordered registry of backend targets, each with a health status
  (`unknown`, `up`, `down`);
- an IP-hash selector. It sums the character codes of the client identity and
  indexes the up targets with that sum modulo their number;
- a session store that binds a client identity to a target for 360 000 ms.
  The expiry is fixed when the session is created. An expired entry is purged
  when it is next looked up;
- the per-request dispatch, which works in this order:
  - reuse a live session whose target is up;
  - otherwise select a target and create a session for it;
  - otherwise answer 503;
- a health monitor that writes a target's status only when its probe result
  differs from the stored one.

Modules: `Registry` (targets, statuses), `Health` (monitor update rule),
`Selector` (hash and selection), `Sessions` (session store), `ClientIdentity`
(`x-forwarded-for` parsing), `Dispatcher` (per-request decision) and `Proxy`
(forwarding with retry, and the whole request). `Wrappers` holds `Option`.

Modelling choices:

- The clock is an explicit `now: nat` parameter in milliseconds.
- Probe outcomes are an input sequence, one per target, in registry order.
- Whether forwarding to a URL fails is an input set of unreachable URLs.
- A target is identified by its position in the registry. Targets are never
  added, removed or reordered. A session stores that position, so
  `session.server.status` reads the target's current status, as the shared
  JavaScript object reference does.
- `charCodeAt` counts UTF-16 code units. `CharCode` sums the surrogate pair
  of a character outside the basic plane, so `Hash` equals the source's loop.
- `trim()` removes exactly the ECMAScript WhiteSpace and LineTerminator
  characters. The model lists them in `IsWhitespace`.
- The source's truthiness tests are modelled as written. An absent or empty
  `x-forwarded-for` falls back to the peer address. An absent or empty peer
  address gives `"unknown"`.
- The code awaits each probe in turn inside a `for … of` loop, and the model
  visits the targets in order.
- When the live session's target is down and no target is up, the answer is
  503 and the stale, still-live session stays in the store. The lookup only
  purges expired entries. The model keeps this behaviour.

## Model

| member | source | states |
|---|---|---|
| `Selector.ComputeHash` | api/index.js:163-166 | the loop's accumulated hash equals the sum of the character codes of the whole identity |
| `Selector.HashPermutation` | api/index.js:163-166 | identities with the same multiset of characters have the same hash |
| `Selector.EligibleFrom` | api/index.js:159 | the filtered list holds exactly the up (and not excluded) targets, in strictly increasing registry order |
| `Selector.PickByHash` | api/index.js:160-170 | no pick exactly when the candidate list is empty; otherwise the pick is one of the candidates |
| `Selector.SelectTargetByIPHash` | api/index.js:158-171 | null exactly when no target is up; a returned target is always up |
| `Selector.SelectDependsOnlyOnUpPositions` | api/index.js:158-171 | the choice depends only on the identity and on which positions are up: same identity and same up list give the same target |
| `Selector.SelectPermutationInvariant` | api/index.js:163-170 | anagram identities are sent to the same target |
| `Sessions.CreateSession` | api/index.js:174-180 | the entry for the client becomes exactly (server, now + 360000) whatever was there; every other entry is unchanged |
| `Sessions.GetSession` | api/index.js:183-195 | returns the stored session iff one exists with expiry strictly after now, and then leaves the store alone; otherwise returns nothing and the client has no entry afterwards; other entries unchanged |
| `Sessions.SessionLifetime` | api/index.js:174-195 | a session created at T is found by every lookup before T + 360000 and by none from then on |
| `Sessions.GetSessionIdempotent` | api/index.js:183-195 | a second lookup at the same instant returns the same result and store |
| `Sessions.GetSessionAbsentStaysAbsent` | api/index.js:183-195 | a lookup that finds nothing leaves no entry, so the next lookup, at any instant, finds nothing either |
| `Sessions.StoreOperationsKeepServersBelow` | api/index.js:174-195 | lookups and creations with a registry position keep every session pointing into the registry |
| `ClientIdentity.FirstField` | api/index.js:234 | the first field is a prefix of the header, holds no comma, and ends at the first comma or at the end |
| `ClientIdentity.Trim` | api/index.js:234 | the result is a slice with only whitespace cut on either side, and it neither starts nor ends with whitespace |
| `ClientIdentity.TrimCharacterization` | api/index.js:234 | any slice with whitespace around it that is empty or has non-whitespace ends is the trim |
| `ClientIdentity.GetClientIP` | api/index.js:231-237 | with a non-empty header the identity has no comma and no surrounding whitespace; otherwise it is the peer address, or "unknown" when that is missing or empty |
| `ClientIdentity.ClientIPFromHeader` | api/index.js:232-234 | with a non-empty header the identity is the whitespace-trimmed text before the first comma |
| `Health.ProbeStatus` | api/index.js:240-247 | a probe never yields unknown; it yields up exactly when the backend answered with a success status |
| `Health.AfterCheck` | api/index.js:250-258 | after a cycle each target keeps its url, weight and position and is up exactly when its probe answered ok |
| `Health.CheckServerStatuses` | api/index.js:250-258 | the change-only loop ends in the same registry as one cycle; it writes exactly the targets whose status differs, in order; every other target is untouched |
| `Health.AfterCheckIdempotent` | api/index.js:251-256 | a second cycle with the same probe results changes nothing |
| `Health.AfterCheckForgetsStatuses` | api/index.js:251-256 | the registry after a cycle does not depend on the statuses before it, only on the probe results |
| `Dispatcher.Dispatch` | api/index.js:132-154 | 503 exactly when no target is up; a forward always goes to an up target's url, and the client then holds a live session to that target; a 503 creates no session; other clients' entries unchanged |
| `Dispatcher.DispatchReusesLiveSession` | api/index.js:136-142 | a live session on an up server is reused whatever the hash picks, and the store is left exactly as it was (no new session, no refreshed expiry) |
| `Dispatcher.DispatchSelectsFresh` | api/index.js:144-154 | without a reusable session: 503 and no new session when nothing is up, else a session with full timeout for exactly the selected target, which receives the request |
| `Dispatcher.StickyWhileLiveAndUp` | api/index.js:136-154 | after a forward, later requests of the same client before expiry go to the same target while it stays up |
| `Dispatcher.DispatchKeepsServersBelow` | api/index.js:145-151 | every session keeps naming a registry position across requests |
| `Dispatcher.ThreeTargetScenario` | api/index.js:132-171 | three up targets, client "1.2.3.4": first and second request go to the second target; once it is down the first target is chosen and the session overwritten |
| `Proxy.ProxyAsWritten` | api/index.js:202-212 | the error handler as written: a reachable first URL is answered; a completed exchange is with the first URL or with the target the hash selects, and is reachable; a failure with nothing up answers "all servers are unavailable", and only then |
| `Proxy.AsWrittenRetriesForever` | api/index.js:202-212 | when the hash-selected target is unreachable, no number of retries ends with a response |
| `Proxy.Failover` | api/index.js:202-212 | the corrected retry: distinct URLs, all but the last failed, at most one attempt per untried up target; it gives up only when every up target failed |
| `Proxy.FailoverRetriesUntriedUpTargets` | api/index.js:205-209 | in the corrected retry, every attempt after the first goes to an up target not tried before |
| `Proxy.FailoverAttemptsBounded` | api/index.js:202-212 | starting from an up target, the retry makes at most one attempt per up target |
| `Proxy.RetryCounterexample` | api/index.js:202-212 | targets A and B up, client "a", B unreachable: the handler as written never answers; the failover reaches A on the second attempt |
| `Proxy.ServeAsWritten` | api/index.js:132-212 | a whole request as written: 503 "no available servers" exactly when nothing is up; an answer from a backend comes from a reachable one; with the registry fixed during the request, "all servers are unavailable" is never answered |
| `Proxy.Serve` | api/index.js:132-212 | a whole request with the corrected retry (the intended behaviour of the finding below, not the code as written): 503 exactly when nothing is up; an answer comes from a reachable up target; whenever some up target is reachable the request is delivered |
| `Proxy.ServeRetryCounterexample` | api/index.js:132-212 | on the finding's input, a first request as written never gets an answer, and with the corrected retry it is delivered to A |

## Left out

- The status page and the favicon route (api/index.js:23-130) are rendering and routing. The page only reads `url` and `status` of the targets.
- The forwarding itself (`http-proxy-middleware`, `changeOrigin`, `onProxyReq`, `onProxyRes`) is a foreign library. Its outcome is the input set of unreachable URLs, fixed for one request.
- The network probe (`node-fetch` with a 3000 ms timeout) is I/O. Its outcome is the `ProbeResult` input. Only the mapping of an ok response to up and of everything else to down is modelled.
- The 120 000 ms timer, the startup check, the Vercel export, the listener and all logging are scheduling and plumbing. `CheckServerStatuses` returns the positions whose change would be logged.
- Asynchronous interleaving is not modelled. A health cycle can run between the retries of one request, and the model holds the registry fixed during a request. The source reads `Date.now()` separately in the lookup and in the creation; the model uses one `now` per request.
- The `weight` field is carried as data only. No operation of the source reads it.
- The hash is a JavaScript number, exact below 2^53. The model uses unbounded integers, which agree with it for every identity shorter than about 10^11 characters.
- Strings holding lone UTF-16 surrogates cannot be represented as Dafny strings and are not modelled.
- The session store is a plain object. Keys such as `__proto__` or inherited property names behave like absent keys for every lookup result. The model uses a map. The only difference is that an expired `__proto__` entry is not physically deleted.
- `ClientIdentity.GetClientIP`: its own contract gives only the shape of the header result. The exact value, the trimmed text before the first comma, is stated by `ClientIdentity.ClientIPFromHeader`.

## Findings

| source | as written | input that shows it | evidently intended | confidence | as-written member | corrected member |
|---|---|---|---|---|---|---|
| api/index.js:202-212 | on a forwarding error the handler selects again by the client's IP hash over the unchanged registry. It therefore retries the same target and recurses without a bound | targets A and B both up, client "a" (hash 97, 97 mod 2 = 1 selects B), B unreachable, A reachable: the handler retries B for ever | retry on another ("backup") server; answer "all servers are unavailable" once every up server has failed | medium, not executed (depends on the library invoking `onError` once per failed attempt) | `Proxy.ProxyAsWritten` | `Proxy.Failover` |
