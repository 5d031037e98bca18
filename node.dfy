/** One running node: the capacity ledger it guards with its mutex, the block
    handler built on it and the health view. Each ledger operation is one
    critical section of the source and is modelled as one atomic method. */
module NodeService {
  import opened ChainGuard
  import opened Admission

  /** What the health handler reports. */
  datatype HealthReport = HealthReport(hostname: string, activeRequests: int, maxCPU: int,
                                       memoryUsage: int, maxMemory: int, status: string)

  class Node {
    var activeRequests: int
    var memoryUsage: int
    const maxCPU: int
    const maxMemory: int
    const memoryPerRequest: int
    const peers: seq<string>
    const hostname: string

    /** Number of admitted requests whose deferred release has not yet run. */
    ghost var inFlight: nat

    function Counters(): Usage
      reads this
    {
      Usage(activeRequests, memoryUsage)
    }

    function Config(): Limits {
      Limits(maxCPU, maxMemory, memoryPerRequest)
    }

    /** Both counters move together: each held reservation accounts for one
        slot and one request's memory, and nothing else is counted. */
    ghost predicate Balanced()
      reads this
    {
      activeRequests == inFlight && memoryUsage == inFlight * memoryPerRequest
    }

    /** A node as started: counters at zero, nothing in flight. */
    constructor (hostname: string, maxCPU: int, maxMemory: int, memoryPerRequest: int,
                 peers: seq<string>)
      ensures this.hostname == hostname && this.peers == peers
      ensures Config() == Limits(maxCPU, maxMemory, memoryPerRequest)
      ensures Counters() == Usage(0, 0) && inFlight == 0 && Balanced()
      ensures maxCPU >= 0 && maxMemory >= 0 ==> WithinLimits(Counters(), Config())
    {
      this.hostname := hostname;
      this.maxCPU := maxCPU;
      this.maxMemory := maxMemory;
      this.memoryPerRequest := memoryPerRequest;
      this.peers := peers;
      activeRequests := 0;
      memoryUsage := 0;
      inFlight := 0;
    }

    /** The atomic check-and-reserve: admits exactly when there is a free CPU
        slot and room for one request's memory; a refusal changes nothing. */
    method TryReserve() returns (admitted: bool)
      modifies this
      ensures admitted == CanHandle(old(Counters()), Config())
      ensures admitted ==> Counters() == Reserved(old(Counters()), Config())
                           && inFlight == old(inFlight) + 1
      ensures !admitted ==> unchanged(this)
      ensures old(WithinLimits(Counters(), Config())) && memoryPerRequest >= 0 ==>
                WithinLimits(Counters(), Config())
      ensures old(Balanced()) ==> Balanced()
    {
      admitted := activeRequests < maxCPU && memoryUsage + memoryPerRequest <= maxMemory;
      if admitted {
        activeRequests := activeRequests + 1;
        memoryUsage := memoryUsage + memoryPerRequest;
        inFlight := inFlight + 1;
      }
    }

    /** The deferred release of an admitted request: both counters drop back. */
    method Release()
      requires inFlight > 0
      modifies this
      ensures Counters() == Released(old(Counters()), Config())
      ensures inFlight == old(inFlight) - 1
      ensures old(Balanced()) ==> Balanced()
      ensures old(Balanced() && WithinLimits(Counters(), Config())) && memoryPerRequest >= 0 ==>
                WithinLimits(Counters(), Config())
    {
      activeRequests := activeRequests - 1;
      memoryUsage := memoryUsage - memoryPerRequest;
      inFlight := inFlight - 1;
      assert (inFlight + 1) * memoryPerRequest == inFlight * memoryPerRequest + memoryPerRequest;
    }

    /** The block handler up to the point where the work starts: chain guard,
        then the ledger, then the peer fallback. A handled request leaves its
        reservation held; every other outcome leaves the ledger as it was. */
    method Admit(header: string, pick: nat) returns (o: Outcome)
      requires |peers| == 0 || pick < |peers|
      modifies this
      ensures o == Decide(header, hostname, old(Counters()), Config(), |peers|, pick)
      ensures o.Handled? ==> Counters() == Reserved(old(Counters()), Config())
                             && inFlight == old(inFlight) + 1
      ensures !o.Handled? ==> unchanged(this)
      ensures old(WithinLimits(Counters(), Config())) && memoryPerRequest >= 0 ==>
                WithinLimits(Counters(), Config())
      ensures old(Balanced()) ==> Balanced()
    {
      var guard := ExtendChain(header, hostname);
      if guard.Rejected? {
        return TooManyHops;
      }
      var snapshot := Counters();
      var admitted := TryReserve();
      if admitted {
        return Handled(guard.chain);
      }
      var reason := RejectReason(snapshot, Config());
      if |peers| == 0 {
        return Unavailable(guard.chain, reason);
      }
      return Proxied(pick, guard.chain, reason);
    }

    /** A whole block request: admission, the (unmodelled) work, and the
        deferred release. Whatever the outcome, the ledger ends as it began. */
    method EthBlock(header: string, pick: nat) returns (o: Outcome)
      requires |peers| == 0 || pick < |peers|
      modifies this
      ensures o == Decide(header, hostname, old(Counters()), Config(), |peers|, pick)
      ensures Counters() == old(Counters()) && inFlight == old(inFlight)
    {
      o := Admit(header, pick);
      if o.Handled? {
        Release();
      }
    }

    /** The health handler: a snapshot of the counters and the status word. */
    method Health() returns (report: HealthReport)
      ensures report.hostname == hostname && report.maxCPU == maxCPU
      ensures report.maxMemory == maxMemory
      ensures report.activeRequests == activeRequests && report.memoryUsage == memoryUsage
      ensures report.status == "busy" || report.status == "ready"
      ensures report.status == "busy" <==>
                activeRequests >= maxCPU || memoryUsage >= maxMemory
    {
      report := HealthReport(hostname, activeRequests, maxCPU, memoryUsage, maxMemory,
                             StatusOf(Counters(), Config()));
    }
  }

  /** Three requests with fresh chains reach a node with two CPU slots, 200
      memory units, 50 per request and no peers, before any of them finishes:
      two are handled, the third gets 503 for CPU overload. Once the two
      handled requests complete, the ledger is back to zero. */
  method ThreeConcurrentRequests(hostname: string)
    returns (o1: Outcome, o2: Outcome, o3: Outcome, after: Usage)
    ensures o1 == Handled(hostname) && o2 == Handled(hostname)
    ensures o3 == Unavailable(hostname, CpuOverload)
    ensures after == Usage(0, 0)
  {
    var node := new Node(hostname, 2, 200, 50, []);
    assert ExtendChain("", hostname) == Extended(hostname);
    o1 := node.Admit("", 0);
    assert node.Counters() == Usage(1, 50) && node.inFlight == 1;
    o2 := node.Admit("", 0);
    assert node.Counters() == Usage(2, 100) && node.inFlight == 2;
    o3 := node.Admit("", 0);
    assert node.Counters() == Usage(2, 100);
    node.Release();
    node.Release();
    after := node.Counters();
  }

  /** A node at capacity with one peer forwards, passing on the caller's chain
      with its own hostname appended. */
  method ForwardWhenFull(chain: string, hostname: string, peer: string)
    returns (o: Outcome)
    requires chain != "" && hostname != ""
    requires |Split(chain, Delimiter)| < MaxHops && !Contains(chain, hostname)
    ensures o == Proxied(0, chain + Delimiter + hostname, CpuOverload)
  {
    var node := new Node(hostname, 1, 200, 50, [peer]);
    var first := node.Admit("", 0);
    o := node.Admit(chain, 0);
  }
}
