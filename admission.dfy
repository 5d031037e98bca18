/** The per-request decision of the block handler and the status rule of the
    health handler, as functions of a snapshot of the node's counters and its
    static limits. */
module Admission {
  import opened ChainGuard

  /** The node's static configuration: CPU slots, memory ceiling and the
      memory charged per admitted request. */
  datatype Limits = Limits(maxCPU: int, maxMemory: int, memoryPerRequest: int)

  /** A snapshot of the two counters the node guards with its mutex. */
  datatype Usage = Usage(activeRequests: int, memoryUsage: int)

  /** The counters stay inside the configured ceilings. */
  predicate WithinLimits(u: Usage, l: Limits) {
    0 <= u.activeRequests <= l.maxCPU && 0 <= u.memoryUsage <= l.maxMemory
  }

  /** The admission test: a free CPU slot and room for one more request's memory. */
  predicate CanHandle(u: Usage, l: Limits) {
    u.activeRequests < l.maxCPU && u.memoryUsage + l.memoryPerRequest <= l.maxMemory
  }

  /** The counters once a request is admitted. */
  function Reserved(u: Usage, l: Limits): Usage {
    Usage(u.activeRequests + 1, u.memoryUsage + l.memoryPerRequest)
  }

  /** The counters once an admitted request finishes. */
  function Released(u: Usage, l: Limits): Usage {
    Usage(u.activeRequests - 1, u.memoryUsage - l.memoryPerRequest)
  }

  /** An admission keeps the counters inside the ceilings, and the matching
      release restores them exactly. */
  lemma ReserveThenRelease(u: Usage, l: Limits)
    requires CanHandle(u, l)
    ensures WithinLimits(u, l) && l.memoryPerRequest >= 0 ==> WithinLimits(Reserved(u, l), l)
    ensures Released(Reserved(u, l), l) == u
  {
  }

  /** Why a request was not admitted. */
  datatype Reason = CpuOverload | MemoryOverload

  /** The reason reported for a refused admission: the CPU check wins. */
  function RejectReason(u: Usage, l: Limits): (r: Reason)
    requires !CanHandle(u, l)
    ensures r == CpuOverload <==> u.activeRequests >= l.maxCPU
    ensures r == MemoryOverload ==> u.memoryUsage + l.memoryPerRequest > l.maxMemory
  {
    if u.activeRequests >= l.maxCPU then CpuOverload else MemoryOverload
  }

  /** The result of one block request. A `reason` is what the node writes to
      its log; it is not part of any response. */
  datatype Outcome =
    | TooManyHops                                       // 429 from the chain guard
    | Handled(chain: string)                            // served locally
    | Unavailable(chain: string, reason: Reason)        // 503: no peer to try
    | Proxied(peer: nat, chain: string, reason: Reason) // relayed, chain header rewritten

  /** The whole decision of the block handler: the chain guard first, then
      admission against the counters, then the peer fallback. `pick` is the
      peer index the handler draws at random. */
  function Decide(header: string, hostname: string, u: Usage, l: Limits,
                  peerCount: nat, pick: nat): (o: Outcome)
    requires peerCount == 0 || pick < peerCount
    ensures o == TooManyHops <==> ExtendChain(header, hostname) == Rejected
    ensures o.Handled? <==> ExtendChain(header, hostname).Extended? && CanHandle(u, l)
    ensures o.Unavailable? <==>
      ExtendChain(header, hostname).Extended? && !CanHandle(u, l) && peerCount == 0
    ensures o.Proxied? ==> o.peer < peerCount && o.peer == pick
    ensures !o.TooManyHops? ==> o.chain == ExtendChain(header, hostname).chain
    ensures (o.Unavailable? || o.Proxied?) ==>
      (o.reason == CpuOverload <==> u.activeRequests >= l.maxCPU)
  {
    match ExtendChain(header, hostname)
    case Rejected => TooManyHops
    case Extended(chain) =>
      if CanHandle(u, l) then Handled(chain)
      else if peerCount == 0 then Unavailable(chain, RejectReason(u, l))
      else Proxied(pick, chain, RejectReason(u, l))
  }

  /** A chain refusal depends neither on the counters and limits nor on the peers. */
  lemma ChainRejectionIgnoresLedger(header: string, hostname: string, u1: Usage, u2: Usage,
                                    l1: Limits, l2: Limits, peerCount1: nat, pick1: nat,
                                    peerCount2: nat, pick2: nat)
    requires peerCount1 == 0 || pick1 < peerCount1
    requires peerCount2 == 0 || pick2 < peerCount2
    requires Decide(header, hostname, u1, l1, peerCount1, pick1) == TooManyHops
    ensures Decide(header, hostname, u2, l2, peerCount2, pick2) == TooManyHops
  {
  }

  /** When both ceilings are exceeded, CPU overload is reported. */
  lemma CpuReasonWins(header: string, hostname: string, u: Usage, l: Limits,
                      peerCount: nat, pick: nat)
    requires peerCount == 0 || pick < peerCount
    requires u.activeRequests >= l.maxCPU
    requires u.memoryUsage + l.memoryPerRequest > l.maxMemory
    ensures var o := Decide(header, hostname, u, l, peerCount, pick);
      o.TooManyHops? || o.reason == CpuOverload
  {
  }

  /** The health handler's status word. */
  function StatusOf(u: Usage, l: Limits): (s: string)
    ensures s == "busy" || s == "ready"
    ensures s == "busy" <==> u.activeRequests >= l.maxCPU || u.memoryUsage >= l.maxMemory
  {
    if u.activeRequests >= l.maxCPU || u.memoryUsage >= l.maxMemory then "busy" else "ready"
  }

  /** With a positive per-request memory cost, a "busy" node refuses admission. */
  lemma BusyRefuses(u: Usage, l: Limits)
    requires l.memoryPerRequest > 0
    requires StatusOf(u, l) == "busy"
    ensures !CanHandle(u, l)
  {
  }

  /** The status word is not the admission test: a "busy" node can still admit
      when requests cost no memory, and a "ready" node can refuse a request
      whose memory would not fit. */
  lemma StatusDiffersFromAdmission()
    ensures var l := Limits(2, 200, 0); var u := Usage(0, 200);
      StatusOf(u, l) == "busy" && CanHandle(u, l)
    ensures var l := Limits(2, 200, 50); var u := Usage(1, 180);
      StatusOf(u, l) == "ready" && !CanHandle(u, l)
  {
  }
}
