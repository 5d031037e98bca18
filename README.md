# GoLoadBalancer node: admission control and forwarding, in Dafny

A node of GoLoadBalancer answers `GET /eth/block` in one of four ways. It can
handle the request itself, relay it to a peer, answer 503 when it is full and
has no peers, or answer 429 when the `X-Request-Chain` header shows a loop or
too many hops. The node's capacity ledger is two counters, `activeRequests` and
`memoryUsage`. Each is checked against a static ceiling, `maxCPU` and
`maxMemory`, and every admitted request is charged `memoryPerRequest`.
`GET /health` reports the counters and a status word: "busy" or "ready".

The model has three modules, one per piece of `main.go`:

- `ChainGuard` (`chain_guard.dfy`) holds the chain check, written as pure
  functions on strings. The chain check calls `strings.Split` and
  `strings.Contains`, which rests on `strings.Index`; all three are modelled.
  `Join` is not called by the handler. It serves only the lemmas, as the
  inverse of `Split`.
- `Admission` (`admission.dfy`) holds the decision. It reads a snapshot of the
  counters and the limits. The rules are: admission test, rejection reason, the
  choice between a peer and 503, and the status word.
- `NodeService` (`node.dfy`) holds the `Node` class. Its fields are the
  source's fields. The critical sections under the mutex become atomic methods.
  The reserve and the deferred release update the counters in place. The health
  snapshot only reads them. The block handler is built from these methods.

A ghost counter, `inFlight`, counts the admitted requests whose deferred
release has not yet run. `Balanced()` ties both counters to it. This is how the
model says that the two counters always move together, and that they return to
zero once every admitted request has finished.

Loop detection works on the raw header, not on the hop list. The comment at
`main.go:50` speaks of the node being "already in chain", but `main.go:52`
applies `strings.Contains` to the whole header. A chain is therefore rejected
whenever the hostname occurs anywhere in it as a substring. The model follows
the code. `PrefixOfHopRejected` shows one consequence: `node1` counts as
present in `node10 → x`. `EmptyHostnameRejects` shows another: an empty
hostname rejects every non-empty chain.

## Model

| member | source | states |
|---|---|---|
| `ChainGuard.Index` | main.go:52 | Gives the first position where the pattern occurs, with no occurrence before it. Gives -1 exactly when the pattern occurs nowhere. |
| `ChainGuard.Contains` | main.go:52 | True exactly when the pattern occurs at some position of the string. |
| `ChainGuard.Split` | main.go:51 | Splitting always yields at least one piece. |
| `ChainGuard.PiecesLackSeparator` | main.go:51 | No piece of a split contains the separator. |
| `ChainGuard.JoinSplit` | main.go:51 | Joining the pieces again with the delimiter gives back the original header, so splitting loses nothing. |
| `ChainGuard.PieceIsSubstring` | main.go:51-52 | Every hop in the split list is a substring of the raw chain. |
| `ChainGuard.SplitJoin` | main.go:51-57 | If no hop contains the arrow character, splitting a joined chain gives back exactly those hops. |
| `ChainGuard.ExtendChain` | main.go:46-58 | An empty header becomes just the hostname. A non-empty header is rejected exactly when it has at least 5 pieces or contains the hostname at some position. Otherwise the result is the header, the delimiter and the hostname. |
| `ChainGuard.LoopRejected` | main.go:51-55 | A non-empty chain that already lists the node as a hop is rejected. |
| `ChainGuard.ExtendAddsOneHop` | main.go:51-57 | Take a chain of arrow-free hops and an arrow-free hostname. If the chain has at least 5 hops, it is rejected. If the guard accepts it, the new chain splits into the old hops with the hostname added as the last hop. |
| `ChainGuard.OneMorePiece` | main.go:51-57 | For any string and an arrow-free name, appending the delimiter and the name gives exactly one more piece when split. |
| `ChainGuard.AcceptedGainsOnePiece` | main.go:46-57 | For any header and an arrow-free hostname the guard accepts: an empty header becomes the single hop `hostname`. Otherwise, the piece count the guard compares with 5 grows by exactly one. |
| `ChainGuard.PrefixOfHopRejected` | main.go:52 | `node1` is not a hop of `node10 → x`, but that chain is still rejected at `node1`. |
| `ChainGuard.EmptyHostnameRejects` | main.go:52 | With an empty hostname, every non-empty chain is rejected. |
| `ChainGuard.RevisitRejected` | main.go:46-55 | `nodeA → nodeB → nodeA` arriving at `nodeA` is rejected. |
| `ChainGuard.FiveHopsRejected` | main.go:43-52 | A chain of 5 hops is rejected even when the node is not one of them. |
| `ChainGuard.ArrowHostnameAddsTwoHops` | main.go:51-57 | With an arrow in the hostname, the one-extra-hop rule can fail: the chain `a →`, extended by the hostname `→ b`, is accepted and gains two pieces. |
| `Admission.ReserveThenRelease` | main.go:66-76 | After an admission, the counters stay within the ceilings when the per-request cost is not negative. The matching release restores the counters exactly. |
| `Admission.RejectReason` | main.go:105-111 | The reason is CPU overload exactly when the active count has reached `maxCPU`. Otherwise it is memory overload, and then the memory would exceed `maxMemory`. |
| `Admission.Decide` | main.go:46-120 | 429 happens exactly when the chain guard rejects. The request is handled exactly when the guard accepts and the admission test passes. 503 happens exactly when the guard accepts, admission fails and there are no peers. A forward goes to the drawn index, which is below the peer count. Every non-429 outcome carries the extended chain. The reason names CPU exactly when the CPU ceiling is reached. |
| `Admission.ChainRejectionIgnoresLedger` | main.go:46-61 | A chain rejection does not depend on the counters, the limits, the peer count or the drawn peer. |
| `Admission.CpuReasonWins` | main.go:105-111 | When both ceilings would be exceeded, the reported reason is CPU overload. |
| `Admission.StatusOf` | main.go:137-140 | The status is "busy" exactly when `activeRequests >= maxCPU` or `memoryUsage >= maxMemory`. Otherwise it is "ready". |
| `Admission.BusyRefuses` | main.go:137-140 | When the per-request cost is positive, a "busy" node fails the admission test. |
| `Admission.StatusDiffersFromAdmission` | main.go:137-140 | A "busy" node can still admit when requests cost no memory. A "ready" node can refuse a request whose memory would not fit. |
| `NodeService.Node.constructor` | main.go:19-28 | A new node starts with both counters at zero, balanced, and within non-negative ceilings. |
| `NodeService.Node.TryReserve` | main.go:61-71 | Admits exactly when the admission test `Admission.CanHandle` (main.go:66) passes. On admission, both counters rise together, to `Admission.Reserved` of the old counters (main.go:69-70). A refusal changes nothing. The ceilings and the pairing of the counters are preserved. |
| `NodeService.Node.Release` | main.go:73-78 | Both counters drop by one request's share, to `Admission.Released` of the old counters (main.go:75-76). The pairing and the ceilings are preserved. |
| `NodeService.Node.Admit` | main.go:41-120 | The outcome is the one `Decide` gives for the counters as they were. A handled request holds its reservation. Every other outcome, including a chain rejection, leaves the node unchanged. |
| `NodeService.Node.EthBlock` | main.go:41-131 | The same outcome as `Decide`. Because the release is deferred, the counters end where they began on every path. |
| `NodeService.Node.Health` | main.go:133-149 | The report copies the counters and limits. Its status is "busy" exactly when a ceiling is reached, and computing it changes nothing. |
| `NodeService.ThreeConcurrentRequests` | main.go:66-117 | On a 2-slot, 200-unit node with 50 units per request and no peers, three overlapping requests get: handled, handled, then 503 for CPU overload. Once the first two finish, both counters are back at zero. |
| `NodeService.ForwardWhenFull` | main.go:104-123 | A full node with one peer relays an acceptable chain to that peer. The chain header it passes on is the caller's chain with the node's hostname appended. |

## Left out

- HTTP plumbing is not modelled. This covers the response writer, `http.Error`, the JSON encoding of the block and health responses, and the router. In the model, the outcomes are the values of `Outcome` and `HealthReport`.
- The reverse proxy is not modelled: its `Director`, `ServeHTTP`, and relaying the peer's reply. Only the peer index and the chain header passed on are kept, in `Proxied`.
- Concurrency is modelled only as atomic critical sections. Each locked region is an atomic method, and interleavings between them are not modelled. `ThreeConcurrentRequests` shows one overlap, in which three admissions happen before any release.
- The simulated work is not modelled. This covers the random sleep, the random block number, timestamp and hash, and the latency measurement. The random peer choice is the parameter `pick`, which is below the peer count as `rand.Intn` guarantees.
- Logging is not modelled. It is a side effect only.
- Startup is not modelled: `main`, environment parsing, `getEnvInt`, and parsing the peer URLs. Peers are opaque strings.
- Strings are modelled as sequences of Unicode characters, not Go's byte strings. The delimiter is three characters in the model; in Go it is five bytes. For valid UTF-8, the substring tests and split points are the same either way.
- Go's 64-bit `int` overflow is not modelled. The counters are unbounded integers.
- `ChainGuard.ExtendAddsOneHop` states the hop list itself (old hops plus the hostname), so it needs hops and a hostname without the arrow character. `ChainGuard.AcceptedGainsOnePiece` states the piece count for any header, and needs only an arrow-free hostname. With an arrow in the hostname the count can grow by two, as `ChainGuard.ArrowHostnameAddsTwoHops` shows.
- The rejection reason carried by `Unavailable` and `Proxied` is visible only in the node's log (main.go:115, main.go:129). The 503 response body is the fixed text "Service unavailable" (main.go:116), and a relayed request carries no reason.
- `NodeService.Node.Release` requires a reservation to be held (`inFlight > 0`). In the source, release runs only as the deferred cleanup of a successful reservation.
