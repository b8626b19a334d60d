/**
  The process monitor's tracking list: one record per registered process, whose
  `alive` flag is rewritten from a liveness probe on every refresh.

  The probe asks the operating system whether a pid exists; here it is the
  parameter `isAlive`.
 */
module ProcessMonitor {

  datatype TrackedProcess = TrackedProcess(pid: int, port: int, role: string, alive: bool)

  /** The monitor starts out tracking nothing. */
  const NoneTracked: seq<TrackedProcess> := []

  /** Start tracking a process; it is taken to be alive until the next refresh says otherwise. */
  function RegisterProcess(tracked: seq<TrackedProcess>, pid: int, port: int, role: string): (tracked': seq<TrackedProcess>)
    ensures |tracked'| == |tracked| + 1
    ensures tracked'[..|tracked|] == tracked
    ensures tracked'[|tracked|] == TrackedProcess(pid, port, role, true)
  {
    tracked + [TrackedProcess(pid, port, role, true)]
  }

  /** Probe every tracked process, in order, and record the answer. */
  function RefreshStatus(tracked: seq<TrackedProcess>, isAlive: int -> bool): (refreshed: seq<TrackedProcess>)
    ensures |refreshed| == |tracked|
    ensures forall i :: 0 <= i < |tracked| ==>
              && refreshed[i].pid == tracked[i].pid
              && refreshed[i].port == tracked[i].port
              && refreshed[i].role == tracked[i].role
              && refreshed[i].alive == isAlive(tracked[i].pid)
  {
    if |tracked| == 0 then []
    else [tracked[0].(alive := isAlive(tracked[0].pid))] + RefreshStatus(tracked[1..], isAlive)
  }

  /** With the same probe answers, a second refresh changes nothing. */
  lemma RefreshIdempotent(tracked: seq<TrackedProcess>, isAlive: int -> bool)
    ensures RefreshStatus(RefreshStatus(tracked, isAlive), isAlive) == RefreshStatus(tracked, isAlive)
  {
  }

  /**
    Refreshing after a registration is refreshing the earlier records and
    taking the new one as the probe reports it.
   */
  lemma RefreshAfterRegister(tracked: seq<TrackedProcess>, isAlive: int -> bool, pid: int, port: int, role: string)
    ensures RefreshStatus(RegisterProcess(tracked, pid, port, role), isAlive)
         == RefreshStatus(tracked, isAlive) + [TrackedProcess(pid, port, role, isAlive(pid))]
  {
  }

  /** A refresh leaves the list as it is exactly when every `alive` flag already agrees with the probe. */
  lemma RefreshFixedPoints(tracked: seq<TrackedProcess>, isAlive: int -> bool)
    ensures RefreshStatus(tracked, isAlive) == tracked
        <==> forall i :: 0 <= i < |tracked| ==> tracked[i].alive == isAlive(tracked[i].pid)
  {
    var refreshed := RefreshStatus(tracked, isAlive);
    if forall i :: 0 <= i < |tracked| ==> tracked[i].alive == isAlive(tracked[i].pid) {
      assert forall i :: 0 <= i < |tracked| ==> refreshed[i] == tracked[i];
    }
  }
}
