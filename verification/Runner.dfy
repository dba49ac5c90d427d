/** The bounded runner after its process-group guard exists: polling, killing, draining and the
    verdict (src/execution_cli.rs). Times are milliseconds. */
module Runner {
  import opened Basics
  import opened Capture

  const DRAIN_TIMEOUT := 1000
  const POLL_INTERVAL := 10

  datatype Poll = Running | Exited(success: bool) | PollFailed

  datatype Reap = Reaped(exitSuccess: bool) | ReapFailed

  /** The channel from one capture thread: when it delivers a capture of these chunks, when it is
      dropped without one, or neither. */
  datatype Receiver = Delivers(at: nat, chunks: seq<Read>) | Drops(droppedAt: nat) | Silent

  /** Everything the runner does not control. `poll(k)` is the k-th `try_wait`; `clock(k)` is the
      time read right after it. */
  datatype Host = Host(
    poll: nat -> Poll,
    clock: nat -> nat,
    reap: Reap,               // the blocking wait after a timeout
    reapTime: nat,            // how long a blocking wait takes
    gaps: (nat, nat),         // time lost before each of the two drains
    stdout: Receiver,
    stderr: Receiver)

  /** The loop sleeps at least the poll interval between two polls. */
  ghost predicate Progresses(h: Host, start: nat) {
    h.clock(0) >= start && forall k: nat :: h.clock(k + 1) >= h.clock(k) + POLL_INTERVAL
  }

  datatype Status = Success | Nonzero | Timeout | CaptureFailed

  datatype Report = Report(status: Status, exitSuccess: bool, stdout: Outcome, stderr: Outcome)

  datatype RunResult = Completed(report: Report) | Unsuccessful(report: Report) | CannotWait | CannotReap

  /** Killing the process group, blocking until the child is reaped, and draining a capture. */
  datatype Event = Kill(at: nat) | Wait(from: nat, to: nat) | Drain(from: nat, to: nat)

  /** The k-th poll ends the loop. */
  predicate Stops(h: Host, deadline: nat, k: nat) {
    h.poll(k) != Running || h.clock(k) >= deadline
  }

  /** The loop ends at the k-th poll. */
  ghost predicate FirstStop(h: Host, deadline: nat, k: nat) {
    Stops(h, deadline, k) && forall j: nat :: j < k ==> !Stops(h, deadline, j)
  }

  lemma FirstStopUnique(h: Host, deadline: nat, j: nat, k: nat)
    requires FirstStop(h, deadline, j) && FirstStop(h, deadline, k)
    ensures j == k
  {
  }

  /** `receive_capture_until`: what is received and when. */
  function Receive(r: Receiver, max: u64, now: nat, deadline: nat): (Outcome, nat) {
    var limit := if deadline > now then deadline else now;
    match r
    case Delivers(at, chunks) =>
      if at <= limit then (Collect("", chunks, max), if at > now then at else now)
      else (Outcome("", Some(DrainTimeout)), limit)
    case Drops(at) =>
      if at <= limit then (Outcome("", Some(Disconnected)), if at > now then at else now)
      else (Outcome("", Some(DrainTimeout)), limit)
    case Silent => (Outcome("", Some(DrainTimeout)), limit)
  }

  /** Both captures, drained one after the other against one deadline set at time `at`, with the
      times at which each drain starts and ends. */
  datatype Drained = Drained(stdout: Outcome, stderr: Outcome, start1: nat, end1: nat, start2: nat, end2: nat)

  function DrainAt(h: Host, max: u64, at: nat): (d: Drained)
    ensures d.start1 <= d.end1 <= d.start2 <= d.end2
    ensures (d.end1 - d.start1) + (d.end2 - d.start2) <= DRAIN_TIMEOUT
  {
    var start1 := at + h.gaps.0;
    var (stdout, end1) := Receive(h.stdout, max, start1, at + DRAIN_TIMEOUT);
    var start2 := end1 + h.gaps.1;
    var (stderr, end2) := Receive(h.stderr, max, start2, at + DRAIN_TIMEOUT);
    Drained(stdout, stderr, start1, end1, start2, end2)
  }

  /** The end of `execute`: name the status and decide between a result and an error. */
  function Judge(timedOut: bool, success: bool, stdout: Outcome, stderr: Outcome): RunResult {
    var captureFailed := stdout.error.Some? || stderr.error.Some?;
    var status :=
      if timedOut then Timeout
      else if captureFailed then CaptureFailed
      else if success then Success
      else Nonzero;
    var report := Report(status, success, stdout, stderr);
    if timedOut || captureFailed || !success then Unsuccessful(report) else Completed(report)
  }

  /** The result when the k-th poll ends the loop. */
  function Verdict(h: Host, k: nat, max: u64): RunResult {
    match h.poll(k)
    case PollFailed => CannotWait
    case Exited(success) =>
      var d := DrainAt(h, max, h.clock(k));
      Judge(false, success, d.stdout, d.stderr)
    case Running =>
      if h.reap.ReapFailed? then CannotReap
      else
        var d := DrainAt(h, max, h.clock(k) + h.reapTime);
        Judge(true, h.reap.exitSuccess, d.stdout, d.stderr)
  }

  /** A kill comes before everything else, and nothing is drained yet. */
  ghost predicate KilledFirst(log: seq<Event>) {
    log != [] && log[0].Kill? && forall i :: 0 <= i < |log| ==> !log[i].Drain?
  }

  /** The group is killed before the program blocks on the child or drains anything, and once more
      when the guard is dropped; the two drains together wait no longer than their shared deadline
      allows. */
  ghost predicate Orderly(log: seq<Event>) {
    && |log| >= 4
    && KilledFirst(log[..|log| - 3])
    && log[|log| - 1].Kill?
    && (var first, second := log[|log| - 3], log[|log| - 2];
        && first.Drain? && second.Drain?
        && first.from <= first.to <= second.from <= second.to
        && (first.to - first.from) + (second.to - second.from) <= DRAIN_TIMEOUT)
  }

  class Execution {
    var now: nat
    var log: seq<Event>

    constructor (start: nat)
      ensures now == start && log == []
    {
      now := start;
      log := [];
    }

    /** `ProcessGroupGuard::kill`, also run when the guard is dropped. */
    method KillGroup()
      modifies this
      ensures now == old(now) && log == old(log) + [Kill(old(now))]
    {
      log := log + [Kill(now)];
    }

    /** `child.wait()`, after a kill. */
    method BlockingWait(h: Host)
      requires KilledFirst(log)
      modifies this
      ensures now == old(now) + h.reapTime && log == old(log) + [Wait(old(now), now)]
    {
      log := log + [Wait(now, now + h.reapTime)];
      now := now + h.reapTime;
    }

    /** `receive_capture_until`: wait for one capture, but never past the deadline. */
    method ReceiveUntil(r: Receiver, max: u64, deadline: nat) returns (o: Outcome)
      modifies this
      ensures (o, now) == Receive(r, max, old(now), deadline)
      // The wait ends by the deadline; without an error it yields the whole stream, which then was
      // within the limit and delivered in time.
      ensures old(now) <= now <= (if deadline > old(now) then deadline else old(now))
      ensures o.error.None? <==> FullyCaptured(r, max, old(now), deadline)
      ensures o.error.None? ==> o.bytes == Stream(r.chunks)
      ensures log == old(log) + [Drain(old(now), now)]
    {
      ReceivedIff(r, max, now, deadline);
      var (outcome, at) := Receive(r, max, now, deadline);
      log := log + [Drain(now, at)];
      now := at;
      return outcome;
    }

    /** Drain both captures against one deadline. */
    method DrainBoth(h: Host, max: u64) returns (stdout: Outcome, stderr: Outcome)
      modifies this
      ensures var d := DrainAt(h, max, old(now));
              && stdout == d.stdout && stderr == d.stderr && now == d.end2
              && log == old(log) + [Drain(d.start1, d.end1), Drain(d.start2, d.end2)]
    {
      var deadline := now + DRAIN_TIMEOUT;
      now := now + h.gaps.0;
      stdout := ReceiveUntil(h.stdout, max, deadline);
      now := now + h.gaps.1;
      stderr := ReceiveUntil(h.stderr, max, deadline);
    }

    /** The wait loop: poll until the child is gone, a poll fails, or the deadline has passed. */
    method WaitLoop(h: Host, deadline: nat) returns (k: nat)
      requires Progresses(h, now)
      modifies this
      ensures FirstStop(h, deadline, k)
      ensures now == h.clock(k) && log == old(log)
      ensures old(now) <= now
    {
      k := 0;
      now := h.clock(0);
      while !Stops(h, deadline, k)
        invariant old(now) <= now == h.clock(k) && log == old(log)
        invariant forall j: nat :: j < k ==> !Stops(h, deadline, j)
        decreases deadline - now
      {
        k := k + 1;
        assert h.clock(k - 1 + 1) >= h.clock(k - 1) + POLL_INTERVAL;
        now := h.clock(k);
      }
    }

    /** Drain, then leave: dropping the guard kills the group once more. */
    method DrainAndLeave(h: Host, max: u64) returns (stdout: Outcome, stderr: Outcome)
      requires KilledFirst(log)
      modifies this
      ensures stdout == DrainAt(h, max, old(now)).stdout && stderr == DrainAt(h, max, old(now)).stderr
      ensures Orderly(log)
    {
      stdout, stderr := DrainBoth(h, max);
      KillGroup();
      assert log[..|log| - 3] == old(log);
    }

    /** `execute` from the guard on. */
    method Execute(h: Host, timeoutSeconds: u64, max: u64) returns (r: RunResult, k: nat)
      requires log == [] && Progresses(h, now)
      modifies this
      ensures FirstStop(h, old(now) + timeoutSeconds * 1000, k)
      ensures r == Verdict(h, k, max)
      ensures Orderly(log)
    {
      hide DrainAt, Judge, Orderly, FirstStop, Progresses;
      var deadline := now + timeoutSeconds * 1000;
      k := WaitLoop(h, deadline);
      var timedOut, success := false, false;
      match h.poll(k) {
        case PollFailed =>
          KillGroup();
          BlockingWait(h);
          var _, _ := DrainAndLeave(h, max);
          return CannotWait, k;
        case Exited(status) =>
          success := status;
        case Running =>
          timedOut := true;
          KillGroup();
          BlockingWait(h);
          if h.reap.ReapFailed? {
            var _, _ := DrainAndLeave(h, max);
            return CannotReap, k;
          }
          success := h.reap.exitSuccess;
      }
      KillGroup();
      var stdout, stderr := DrainAndLeave(h, max);
      return Judge(timedOut, success, stdout, stderr), k;
    }
  }

  // ---- What the verdict means ----------------------------------------------------------------

  /** The whole stream was captured within the limit and delivered before the drain gave up. */
  predicate FullyCaptured(r: Receiver, max: u64, start: nat, deadline: nat) {
    && r.Delivers?
    && (r.at <= deadline || r.at <= start)
    && !Breaks(r.chunks) && |Stream(r.chunks)| <= max
  }

  lemma ReceivedIff(r: Receiver, max: u64, start: nat, deadline: nat)
    ensures Receive(r, max, start, deadline).0.error.None? <==> FullyCaptured(r, max, start, deadline)
    ensures FullyCaptured(r, max, start, deadline) ==> Receive(r, max, start, deadline).0.bytes == Stream(r.chunks)
  {
    if r.Delivers? {
      CaptureIff(r.chunks, max);
    }
  }

  /** In every run, success is reported exactly when the loop ended because the child exited with
      success, not because a poll at or after the deadline found it running, and both streams
      were captured completely; the report then holds both streams whole. A timeout is reported
      exactly when a poll read at or after the deadline found the child running and it was
      reaped. */
  lemma SuccessIff(h: Host, deadline: nat, k: nat, max: u64)
    requires FirstStop(h, deadline, k)
    ensures var r, d := Verdict(h, k, max), DrainAt(h, max, h.clock(k));
            && (r.Completed? <==>
                  && h.poll(k) == Exited(true)
                  && (forall j: nat :: j < k ==> h.poll(j).Running? && h.clock(j) < deadline)
                  && FullyCaptured(h.stdout, max, d.start1, h.clock(k) + DRAIN_TIMEOUT)
                  && FullyCaptured(h.stderr, max, d.start2, h.clock(k) + DRAIN_TIMEOUT))
            && (r.Completed? ==>
                  r.report == Report(Success, true, Outcome(Stream(h.stdout.chunks), None), Outcome(Stream(h.stderr.chunks), None)))
            && ((r.Unsuccessful? && r.report.status == Timeout) <==>
                  h.poll(k).Running? && h.clock(k) >= deadline && h.reap.Reaped?)
  {
    var d := DrainAt(h, max, h.clock(k));
    ReceivedIff(h.stdout, max, d.start1, h.clock(k) + DRAIN_TIMEOUT);
    ReceivedIff(h.stderr, max, d.start2, h.clock(k) + DRAIN_TIMEOUT);
    forall j: nat | j < k
      ensures h.poll(j).Running? && h.clock(j) < deadline
    {
      assert !Stops(h, deadline, j);
    }
  }

  /** What the report of a run that does not succeed says. When the child exited before any such
      poll: `nonzero` exactly when it failed and both streams were captured whole, `capture-error`
      exactly when some stream was not; the report holds its exit and each stream whole or with its
      error. After a timeout it holds the exit of the killed child. */
  lemma ReportIff(h: Host, deadline: nat, k: nat, max: u64)
    requires FirstStop(h, deadline, k)
    ensures var r := Verdict(h, k, max);
            var at := if h.poll(k).Running? then h.clock(k) + h.reapTime else h.clock(k);
            var d := DrainAt(h, max, at);
            var out := FullyCaptured(h.stdout, max, d.start1, at + DRAIN_TIMEOUT);
            var err := FullyCaptured(h.stderr, max, d.start2, at + DRAIN_TIMEOUT);
            && (r.CannotWait? <==> h.poll(k).PollFailed?)
            && (r.CannotReap? <==> h.poll(k).Running? && h.reap.ReapFailed?)
            && (r.Unsuccessful? && r.report.status == Nonzero <==> h.poll(k) == Exited(false) && out && err)
            && (r.Unsuccessful? && r.report.status == CaptureFailed <==> h.poll(k).Exited? && !(out && err))
            && (r.Completed? || r.Unsuccessful? ==>
                  && r.report.exitSuccess == (if h.poll(k).Exited? then h.poll(k).success else h.reap.exitSuccess)
                  && (out <==> r.report.stdout.error.None?) && (out ==> r.report.stdout.bytes == Stream(h.stdout.chunks))
                  && (err <==> r.report.stderr.error.None?) && (err ==> r.report.stderr.bytes == Stream(h.stderr.chunks)))
  {
    hide FullyCaptured, Receive;
    var at := if h.poll(k).Running? then h.clock(k) + h.reapTime else h.clock(k);
    var d := DrainAt(h, max, at);
    ReceivedIff(h.stdout, max, d.start1, at + DRAIN_TIMEOUT);
    ReceivedIff(h.stderr, max, d.start2, at + DRAIN_TIMEOUT);
  }

  /** The loop ends within one poll interval's worth of polls per interval left to the deadline. */
  lemma {:induction false} PollsBounded(h: Host, start: nat, deadline: nat, k: nat)
    requires Progresses(h, start) && FirstStop(h, deadline, k) && start <= deadline
    ensures k * POLL_INTERVAL <= deadline - start + POLL_INTERVAL
  {
    if k > 0 {
      assert !Stops(h, deadline, k - 1);
      ClockGrows(h, start, k - 1);
    }
  }

  lemma {:induction false} ClockGrows(h: Host, start: nat, k: nat)
    requires Progresses(h, start)
    ensures h.clock(k) >= start + k * POLL_INTERVAL
  {
    if k > 0 {
      ClockGrows(h, start, k - 1);
      assert h.clock(k - 1 + 1) >= h.clock(k - 1) + POLL_INTERVAL;
    }
  }
}
