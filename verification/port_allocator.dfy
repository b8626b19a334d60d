/**
  The port allocator: hands out ports from the half-open range
  [startPort, endPort), lowest first, skipping ports already handed out and
  ports the operating system reports as taken.

  Whether a port can be bound is asked of the operating system; here that
  probe is the parameter `avail`.
 */
module PortAllocator {
  import opened Optional

  const DefaultStartPort := 5000
  const DefaultEndPort := 6000

  datatype Allocator = Allocator(startPort: int, endPort: int, used: set<int>)

  /** A fresh allocator over [startPort, endPort), by default [5000, 6000), with nothing handed out. */
  function NewAllocator(startPort: int := DefaultStartPort, endPort: int := DefaultEndPort): (a: Allocator)
    ensures a.startPort == startPort && a.endPort == endPort
    ensures forall p :: p !in a.used
  {
    Allocator(startPort, endPort, {})
  }

  /** `p` may be handed out now: in range, not handed out already, and bindable. */
  predicate Eligible(a: Allocator, avail: int -> bool, p: int) {
    a.startPort <= p < a.endPort && p !in a.used && avail(p)
  }

  /** Every port handed out lies in the allocator's range. */
  predicate UsedWithinRange(a: Allocator) {
    forall p :: p in a.used ==> a.startPort <= p < a.endPort
  }

  /** The ascending scan from `from` (inclusive) to `end` (exclusive). */
  function FirstEligible(used: set<int>, avail: int -> bool, from: int, end: int): (r: Option<int>)
    ensures r.Some? ==> from <= r.value < end && r.value !in used && avail(r.value)
    ensures r.Some? ==> forall q :: from <= q < r.value ==> q in used || !avail(q)
    ensures r.None? ==> forall q :: from <= q < end ==> q in used || !avail(q)
    decreases end - from
  {
    if from >= end then None
    else if from !in used && avail(from) then Some(from)
    else FirstEligible(used, avail, from + 1, end)
  }

  /** The outcome of one allocation: the port, if any, and the allocator after the call. */
  datatype Allocation = Allocation(port: Option<int>, state: Allocator)

  /**
    Hand out the least eligible port and mark it used; when there is none the
    call fails (Python raises) and the allocator is left as it was.
   */
  function GetNextFreePort(a: Allocator, avail: int -> bool): (res: Allocation)
    ensures res.port.Some? ==> Eligible(a, avail, res.port.value)
    ensures res.port.Some? ==> forall q :: Eligible(a, avail, q) ==> res.port.value <= q
    ensures res.port.Some? ==> res.state == a.(used := a.used + {res.port.value})
    ensures res.port.None? <==> forall q :: !Eligible(a, avail, q)
    ensures res.port.None? ==> res.state == a
  {
    match FirstEligible(a.used, avail, a.startPort, a.endPort)
    case Some(p) =>
      assert Eligible(a, avail, p);
      Allocation(Some(p), a.(used := a.used + {p}))
    case None => Allocation(None, a)
  }

  /** Make `port` available again; releasing a port that is not in use does nothing. */
  function ReleasePort(a: Allocator, port: int): (a': Allocator)
    ensures port !in a'.used
    ensures forall p :: p != port ==> (p in a'.used <==> p in a.used)
    ensures a'.startPort == a.startPort && a'.endPort == a.endPort
  {
    a.(used := a.used - {port})
  }

  /** The ports granted by `n` consecutive calls with no release in between, and the final allocator. */
  datatype Run = Run(ports: seq<int>, final: Allocator)

  /**
    `n` calls in a row. A failed call grants nothing and changes nothing, so
    only the granted ports are collected.
   */
  function AllocateRepeatedly(a: Allocator, avail: int -> bool, n: nat): (run: Run)
    ensures run.final.startPort == a.startPort && run.final.endPort == a.endPort
    ensures run.final.used == a.used + set p | p in run.ports
    ensures forall i :: 0 <= i < |run.ports| ==>
              a.startPort <= run.ports[i] < a.endPort && run.ports[i] !in a.used && avail(run.ports[i])
    ensures forall i, j :: 0 <= i < j < |run.ports| ==> run.ports[i] != run.ports[j]
    ensures |run.ports| <= n
    decreases n
  {
    if n == 0 then Run([], a)
    else
      var step := GetNextFreePort(a, avail);
      var rest := AllocateRepeatedly(step.state, avail, n - 1);
      match step.port
      case None => rest
      case Some(p) => Run([p] + rest.ports, rest.final)
  }
}
