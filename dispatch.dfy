/** What `event_loop` does with the events the kernel reports, as
    functions over the registry state: which callbacks run, how their
    result codes steer the loop, and what `sig_handler` returns. The
    `Event.Reactor.EventLoop` method is proved to follow `Run`.

    The environment is supplied as data. Each wake-up of `epoll_wait` is a
    `Wake`. The n-th callback run by the loop behaves as `react(n)` says:
    the registry calls it makes and the code it returns. When the n-th run
    is the signal descriptor's, `pending(n)` lists the signal numbers it
    drains. */
module Dispatch {
  import opened Registry

  // Linux signal numbers.
  const SIGINT: int := 2
  const SIGUSR1: int := 10
  const SIGUSR2: int := 12
  const SIGTERM: int := 15
  const SIGCHLD: int := 17

  /** The quit code (negated) that asks the loop for a graceful stop. It is
      defined in common.h, which is not part of this model; any value
      above every errno serves. */
  const EQUIT: int := 1000

  /** A registry call a callback makes while it runs; the model performs
      it with no allocation failure and no kernel fault of its own. */
  datatype Request =
    | AddReq(fd: Fd, pollWrite: bool, cb: Callback, cbData: Context)
    | DelReq(fd: Fd)
    | EnableReq(fd: Fd, enable: bool)

  /** What one run of a collaborator's callback does. */
  datatype Reaction = Reaction(requests: seq<Request>, code: int)

  /** One return of `epoll_wait`: the ready descriptors, or a failure. */
  datatype Wake = Ready(fds: seq<Fd>) | WaitFailed(errno: nat)

  /** How the loop ends: `event_loop` returned a code, or it is blocked
      in `epoll_wait` because the supplied wake-ups are used up. */
  datatype LoopEnd = Returned(code: int) | Waiting

  /** One ready descriptor: skipped, or its callback ran. */
  datatype Visit = Skipped | Ran(code: int, state: State)

  /** A batch's end: the loop's `ret`, the registry, and how many
      callbacks have run so far. */
  datatype BatchEnd = BatchEnd(ret: int, state: State, calls: nat)

  // ---------------------------------------------------------------------
  // sig_handler

  /** Interrupt and terminate ask for a graceful stop. */
  predicate IsQuit(signo: int) {
    signo == SIGINT || signo == SIGTERM
  }

  /** The code `sig_handler` returns after draining `signals`: the quit
      code when an interrupt or terminate signal is among them, 0
      otherwise (child-exit and the user signals never stop the loop). */
  function SigResult(signals: seq<int>): (r: int)
    ensures r == -EQUIT <==> exists i :: 0 <= i < |signals| && IsQuit(signals[i])
    ensures r == 0 || r == -EQUIT
  {
    if signals == [] then 0
    else if IsQuit(signals[|signals| - 1]) then -EQUIT
    else
      var r := SigResult(signals[..|signals| - 1]);
      assert forall i :: 0 <= i < |signals| - 1 ==> signals[..|signals| - 1][i] == signals[i];
      r
  }

  // ---------------------------------------------------------------------
  // Callbacks and the loop.

  function Perform(s: State, q: Request): (s': State)
    requires |s.table| == FDD_HASH_SIZE
    ensures |s'.table| == FDD_HASH_SIZE
  {
    match q
    case AddReq(fd, pollWrite, cb, cbData) => Add(s, fd, pollWrite, cb, cbData, false, 0).state
    case DelReq(fd) => Del(s, fd, 0).state
    case EnableReq(fd, enable) => Enable(s, fd, enable, 0).state
  }

  function PerformAll(s: State, qs: seq<Request>): (s': State)
    requires |s.table| == FDD_HASH_SIZE
    ensures |s'.table| == FDD_HASH_SIZE
    decreases |qs|
  {
    if qs == [] then s else PerformAll(Perform(s, qs[0]), qs[1..])
  }

  /** The n-th callback run, on registration `d`: the code it returns and
      the registry after the calls it made. */
  function Invoke(s: State, d: FdData, n: nat, react: nat -> Reaction, pending: nat -> seq<int>): (r: (int, State))
    requires |s.table| == FDD_HASH_SIZE
    ensures |r.1.table| == FDD_HASH_SIZE
  {
    if d.cb == SignalHandler then (SigResult(pending(n)), s)
    else (react(n).code, PerformAll(s, react(n).requests))
  }

  /** One ready descriptor. It is looked up again first: a descriptor that
      an earlier callback of the same batch removed or disabled is skipped.
      Otherwise its callback runs, and a positive result disables it. */
  function VisitFd(s: State, fd: Fd, n: nat, react: nat -> Reaction, pending: nat -> seq<int>): (v: Visit)
    requires |s.table| == FDD_HASH_SIZE
    ensures v.Ran? ==> |v.state.table| == FDD_HASH_SIZE
  {
    if !Found(s.table, fd) || !Node(s.table, fd).enabled then Skipped
    else
      var (code, s1) := Invoke(s, Node(s.table, fd), n, react, pending);
      Ran(code, if code > 0 then Enable(s1, fd, false, 0).state else s1)
  }

  /** The ready descriptors of one wake-up, in order; a negative result
      ends the batch at once. `ret` is the loop's variable, which only a
      callback that ran can change. */
  function Batch(s: State, fds: seq<Fd>, ret: int, n: nat, react: nat -> Reaction, pending: nat -> seq<int>): (b: BatchEnd)
    requires |s.table| == FDD_HASH_SIZE
    ensures |b.state.table| == FDD_HASH_SIZE
    ensures n <= b.calls <= n + |fds|
    ensures b.ret != ret ==> b.calls > n
    decreases |fds|
  {
    if fds == [] then BatchEnd(ret, s, n)
    else match VisitFd(s, fds[0], n, react, pending)
      case Skipped => Batch(s, fds[1..], ret, n, react, pending)
      case Ran(code, s1) =>
        if code < 0 then BatchEnd(code, s1, n + 1)
        else Batch(s1, fds[1..], code, n + 1, react, pending)
  }

  /** An `epoll_wait` failure is retried when it is an interrupted call. */
  predicate Retries(errno: nat) {
    errno == EINTR
  }

  /** The retry test as written, `if (errno = EINTR)`: an assignment whose
      value is EINTR, which is never zero. */
  predicate RetriesAsWritten(errno: nat) {
    var value := EINTR;
    value != 0
  }

  /** `event_loop`: wait, dispatch the batch, and go on while `ret` is not
      negative. A wait failure other than an interrupted call leaves the
      loop with the current `ret`. */
  function Run(s: State, wakes: seq<Wake>, ret: int, n: nat, react: nat -> Reaction, pending: nat -> seq<int>): (r: (LoopEnd, State))
    requires |s.table| == FDD_HASH_SIZE
    ensures |r.1.table| == FDD_HASH_SIZE
    decreases |wakes|
  {
    if wakes == [] then (Waiting, s)
    else match wakes[0]
      case WaitFailed(errno) =>
        if Retries(errno) then Run(s, wakes[1..], ret, n, react, pending) else (Returned(ret), s)
      case Ready(fds) =>
        var b := Batch(s, fds, ret, n, react, pending);
        if b.ret < 0 then (Returned(b.ret), b.state)
        else Run(b.state, wakes[1..], b.ret, b.calls, react, pending)
  }

  // ---------------------------------------------------------------------
  // Properties of dispatch.

  /** A registry call made from a callback keeps the registry consistent. */
  lemma {:induction false} PerformKeepsInv(s: State, q: Request)
    requires Inv(s)
    ensures Inv(Perform(s, q))
  {
    match q
    case AddReq(fd, pollWrite, cb, cbData) => AddKeepsInv(s, fd, pollWrite, cb, cbData, false, 0);
    case DelReq(fd) => DelKeepsInv(s, fd);
    case EnableReq(fd, enable) => EnableKeepsInv(s, fd, enable, 0);
  }

  lemma {:induction false} PerformAllKeepsInv(s: State, qs: seq<Request>)
    requires Inv(s)
    ensures Inv(PerformAll(s, qs))
    decreases |qs|
  {
    if qs != [] {
      PerformKeepsInv(s, qs[0]);
      PerformAllKeepsInv(Perform(s, qs[0]), qs[1..]);
    }
  }

  /** A registry call about another descriptor leaves `fd`'s registration
      as it was. */
  lemma {:induction false} PerformOtherKeeps(s: State, q: Request, fd: Fd)
    requires Inv(s) && q.fd != fd
    ensures var v, v' := View(s.table), View(Perform(s, q).table);
      (fd in v' <==> fd in v) && (fd in v ==> v'[fd] == v[fd])
  {
    match q
    case AddReq(x, pollWrite, cb, cbData) => AddKeepsInv(s, x, pollWrite, cb, cbData, false, 0);
    case DelReq(x) => DelKeepsInv(s, x);
    case EnableReq(x, enable) => EnableKeepsInv(s, x, enable, 0);
  }

  lemma {:induction false} PerformAllOthersKeep(s: State, qs: seq<Request>, fd: Fd)
    requires Inv(s)
    requires forall q :: q in qs ==> q.fd != fd
    ensures var v, v' := View(s.table), View(PerformAll(s, qs).table);
      (fd in v' <==> fd in v) && (fd in v ==> v'[fd] == v[fd])
    decreases |qs|
  {
    if qs != [] {
      PerformOtherKeeps(s, qs[0], fd);
      PerformKeepsInv(s, qs[0]);
      assert forall q :: q in qs[1..] ==> q in qs;
      PerformAllOthersKeep(Perform(s, qs[0]), qs[1..], fd);
    }
  }

  /** Visiting a ready descriptor keeps the registry consistent, and a
      positive result leaves the descriptor disabled (or gone, when its
      callback removed it). */
  lemma {:induction false} VisitKeepsInv(s: State, fd: Fd, n: nat, react: nat -> Reaction, pending: nat -> seq<int>)
    requires Inv(s)
    ensures var v := VisitFd(s, fd, n, react, pending);
      v.Ran? ==> Inv(v.state) && (v.code > 0 ==> fd !in View(v.state.table) || !View(v.state.table)[fd].enabled)
  {
    if Found(s.table, fd) && Node(s.table, fd).enabled {
      var d := Node(s.table, fd);
      if d.cb != SignalHandler {
        PerformAllKeepsInv(s, react(n).requests);
      }
      var (code, s1) := Invoke(s, d, n, react, pending);
      if code > 0 {
        EnableKeepsInv(s1, fd, false, 0);
      }
    }
  }

  /** A positive result makes the callback one-shot: the next visit to the
      same descriptor is skipped. */
  lemma PositiveResultDisables(s: State, fd: Fd, n: nat, m: nat, react: nat -> Reaction, pending: nat -> seq<int>)
    requires Inv(s)
    requires VisitFd(s, fd, n, react, pending).Ran? && VisitFd(s, fd, n, react, pending).code > 0
    ensures var s1 := VisitFd(s, fd, n, react, pending).state;
      VisitFd(s1, fd, m, react, pending) == Skipped
  {
    VisitKeepsInv(s, fd, n, react, pending);
    ViewAt(VisitFd(s, fd, n, react, pending).state.table, fd);
  }

  /** A positive result only clears the flag: when the callback made no
      registry call about its own descriptor, the registration stays, with
      the same direction, callback and context, so it can be re-enabled. */
  lemma PositiveResultKeepsRegistration(s: State, fd: Fd, n: nat, react: nat -> Reaction, pending: nat -> seq<int>)
    requires Inv(s)
    requires forall q :: q in react(n).requests ==> q.fd != fd
    requires VisitFd(s, fd, n, react, pending).Ran? && VisitFd(s, fd, n, react, pending).code > 0
    ensures var s1 := VisitFd(s, fd, n, react, pending).state;
      fd in View(s.table) && fd in View(s1.table) && View(s1.table)[fd] == View(s.table)[fd].(enabled := false)
  {
    ViewAt(s.table, fd);
    var d := Node(s.table, fd);
    var (code, s1) := Invoke(s, d, n, react, pending);
    if d.cb != SignalHandler {
      PerformAllOthersKeep(s, react(n).requests, fd);
      PerformAllKeepsInv(s, react(n).requests);
    }
    EnableKeepsInv(s1, fd, false, 0);
  }

  /** A zero result keeps the descriptor registered and enabled, unless
      the callback itself asked the registry about it. */
  lemma ZeroResultKeepsEnabled(s: State, fd: Fd, n: nat, react: nat -> Reaction, pending: nat -> seq<int>)
    requires Inv(s)
    requires forall q :: q in react(n).requests ==> q.fd != fd
    requires VisitFd(s, fd, n, react, pending).Ran? && VisitFd(s, fd, n, react, pending).code == 0
    ensures var s1 := VisitFd(s, fd, n, react, pending).state;
      fd in View(s1.table) && View(s1.table)[fd] == View(s.table)[fd] && View(s1.table)[fd].enabled
  {
    ViewAt(s.table, fd);
    if Node(s.table, fd).cb != SignalHandler {
      PerformAllOthersKeep(s, react(n).requests, fd);
    }
  }

  lemma {:induction false} BatchKeepsInv(s: State, fds: seq<Fd>, ret: int, n: nat, react: nat -> Reaction, pending: nat -> seq<int>)
    requires Inv(s)
    ensures Inv(Batch(s, fds, ret, n, react, pending).state)
    decreases |fds|
  {
    if fds != [] {
      VisitKeepsInv(s, fds[0], n, react, pending);
      match VisitFd(s, fds[0], n, react, pending)
      case Skipped => BatchKeepsInv(s, fds[1..], ret, n, react, pending);
      case Ran(code, s1) =>
        if code >= 0 {
          BatchKeepsInv(s1, fds[1..], code, n + 1, react, pending);
        }
    }
  }

  /** The loop keeps the registry consistent however it ends. */
  lemma {:induction false} RunKeepsInv(s: State, wakes: seq<Wake>, ret: int, n: nat, react: nat -> Reaction, pending: nat -> seq<int>)
    requires Inv(s)
    ensures Inv(Run(s, wakes, ret, n, react, pending).1)
    decreases |wakes|
  {
    if wakes != [] {
      match wakes[0]
      case WaitFailed(errno) =>
        if Retries(errno) {
          RunKeepsInv(s, wakes[1..], ret, n, react, pending);
        }
      case Ready(fds) =>
        BatchKeepsInv(s, fds, ret, n, react, pending);
        var b := Batch(s, fds, ret, n, react, pending);
        if b.ret >= 0 {
          RunKeepsInv(b.state, wakes[1..], b.ret, b.calls, react, pending);
        }
    }
  }

  /** A batch whose first `k` descriptors ended with a result that is not
      negative (each was skipped, or its callback returned 0 or more) goes
      on from the state those visits left, with the rest of the descriptors. */
  lemma {:induction false} BatchPrefix(s: State, fds: seq<Fd>, k: nat, ret: int, n: nat,
                                       react: nat -> Reaction, pending: nat -> seq<int>)
    requires |s.table| == FDD_HASH_SIZE && k <= |fds| && ret >= 0
    requires Batch(s, fds[..k], ret, n, react, pending).ret >= 0
    ensures var b := Batch(s, fds[..k], ret, n, react, pending);
      Batch(s, fds, ret, n, react, pending) == Batch(b.state, fds[k..], b.ret, b.calls, react, pending)
    decreases k
  {
    if k == 0 {
      assert fds[..0] == [] && fds[0..] == fds;
    } else {
      assert fds[..k][0] == fds[0] && fds[..k][1..] == fds[1..][..k - 1];
      assert fds[1..][k - 1..] == fds[k..];
      match VisitFd(s, fds[0], n, react, pending)
      case Skipped =>
        BatchPrefix(s, fds[1..], k - 1, ret, n, react, pending);
      case Ran(code, s1) =>
        if code >= 0 {
          BatchPrefix(s1, fds[1..], k - 1, code, n + 1, react, pending);
        }
    }
  }

  /** A negative result from any descriptor of a wake-up ends the batch
      and the loop at once: when the visits before position `k` all ended
      without a negative result and the callback of `fds[k]` returns
      `c < 0`, the descriptors after it are not visited and the loop
      returns exactly `c`, on the state that callback left. */
  lemma {:induction false} NegativeResultStopsLoop(s: State, fds: seq<Fd>, k: nat, rest: seq<Wake>, ret: int, n: nat,
                                                   react: nat -> Reaction, pending: nat -> seq<int>)
    requires |s.table| == FDD_HASH_SIZE && k < |fds| && ret >= 0
    requires Batch(s, fds[..k], ret, n, react, pending).ret >= 0
    requires var b := Batch(s, fds[..k], ret, n, react, pending);
      VisitFd(b.state, fds[k], b.calls, react, pending).Ran? && VisitFd(b.state, fds[k], b.calls, react, pending).code < 0
    ensures var b := Batch(s, fds[..k], ret, n, react, pending);
      var v := VisitFd(b.state, fds[k], b.calls, react, pending);
      && Batch(s, fds, ret, n, react, pending) == BatchEnd(v.code, v.state, b.calls + 1)
      && Run(s, [Ready(fds)] + rest, ret, n, react, pending) == (Returned(v.code), v.state)
  {
    BatchPrefix(s, fds, k, ret, n, react, pending);
    assert fds[k..][0] == fds[k];
    assert ([Ready(fds)] + rest)[0] == Ready(fds);
  }

  /** An interrupt or terminate signal drained by the signal descriptor's
      callback stops the loop with the quit code. */
  lemma QuitSignalStopsLoop(s: State, sigfd: Fd, rest: seq<Wake>, ret: int, n: nat,
                            react: nat -> Reaction, pending: nat -> seq<int>)
    requires |s.table| == FDD_HASH_SIZE && Found(s.table, sigfd)
    requires Node(s.table, sigfd).enabled && Node(s.table, sigfd).cb == SignalHandler
    requires exists i :: 0 <= i < |pending(n)| && IsQuit(pending(n)[i])
    ensures Run(s, [Ready([sigfd])] + rest, ret, n, react, pending) == (Returned(-EQUIT), s)
  {
    assert ([Ready([sigfd])] + rest)[0] == Ready([sigfd]);
  }

  /** Signals that ask for no stop leave the loop running: the handler
      returns 0 and the registry is untouched. */
  lemma OtherSignalsContinue(s: State, sigfd: Fd, rest: seq<Wake>, ret: int, n: nat,
                             react: nat -> Reaction, pending: nat -> seq<int>)
    requires |s.table| == FDD_HASH_SIZE && Found(s.table, sigfd)
    requires Node(s.table, sigfd).enabled && Node(s.table, sigfd).cb == SignalHandler
    requires forall i :: 0 <= i < |pending(n)| ==> !IsQuit(pending(n)[i])
    ensures Run(s, [Ready([sigfd])] + rest, ret, n, react, pending) == Run(s, rest, 0, n + 1, react, pending)
  {
    assert ([Ready([sigfd])] + rest)[0] == Ready([sigfd]);
    assert ([Ready([sigfd])] + rest)[1..] == rest;
    assert SigResult(pending(n)) == 0;
    assert VisitFd(s, sigfd, n, react, pending) == Ran(0, s);
    assert [sigfd][1..] == [];
    assert Batch(s, [sigfd], ret, n, react, pending) == Batch(s, [], 0, n + 1, react, pending);
  }

  /** A failed wait is retried only when it was interrupted; any other
      failure ends the loop with the current value of `ret`. */
  lemma WaitFailureEndsLoop(s: State, errno: nat, rest: seq<Wake>, ret: int, n: nat,
                            react: nat -> Reaction, pending: nat -> seq<int>)
    requires |s.table| == FDD_HASH_SIZE
    ensures errno != EINTR ==> Run(s, [WaitFailed(errno)] + rest, ret, n, react, pending) == (Returned(ret), s)
    ensures errno == EINTR ==> Run(s, [WaitFailed(errno)] + rest, ret, n, react, pending) == Run(s, rest, ret, n, react, pending)
  {
    assert ([WaitFailed(errno)] + rest)[1..] == rest;
  }

  /** As written, the retry test assigns rather than compares, so every
      failure of `epoll_wait` (a bad descriptor, say) is retried forever. */
  lemma AssignmentRetriesEveryFailure()
    ensures forall errno: nat :: RetriesAsWritten(errno)
    ensures RetriesAsWritten(EBADF) && !Retries(EBADF)
  {
  }

  // ---------------------------------------------------------------------
  // The batch as written: dispatching through stale pointers.

  /** The inner loop as the source writes it: it dispatches the nodes
      captured when the wake-up was reported, without looking them up
      again, so a node an earlier callback of the batch removed (and
      freed) or disabled is still called. A positive result disables the
      descriptor through the table. */
  function BatchAsWritten(s: State, ds: seq<FdData>, ret: int, n: nat, react: nat -> Reaction, pending: nat -> seq<int>): (b: BatchEnd)
    requires |s.table| == FDD_HASH_SIZE
    ensures |b.state.table| == FDD_HASH_SIZE
    decreases |ds|
  {
    if ds == [] then BatchEnd(ret, s, n)
    else
      var (code, s1) := Invoke(s, ds[0], n, react, pending);
      if code < 0 then BatchEnd(code, s1, n + 1)
      else BatchAsWritten(if code > 0 then Enable(s1, ds[0].fd, false, 0).state else s1, ds[1..], code, n + 1, react, pending)
  }

  /** Two enabled client descriptors reported by one wake-up, the first of
      whose callbacks removes the second: the source still calls the
      second (through freed memory), the re-checking loop does not. */
  lemma {:induction false} RemovedDescriptorStillDispatched(s: State, f1: Fd, f2: Fd, n: nat,
                                                            react: nat -> Reaction, pending: nat -> seq<int>)
    requires Inv(s) && f1 != f2
    requires f1 in View(s.table) && View(s.table)[f1].enabled && View(s.table)[f1].cb != SignalHandler
    requires f2 in View(s.table) && View(s.table)[f2].enabled && View(s.table)[f2].cb != SignalHandler
    requires react(n) == Reaction([DelReq(f2)], 0)
    ensures f2 !in View(PerformAll(s, react(n).requests).table)
    ensures Batch(s, [f1, f2], 0, n, react, pending).calls == n + 1
    ensures BatchAsWritten(s, [View(s.table)[f1], View(s.table)[f2]], 0, n, react, pending).calls == n + 2
  {
    ViewAt(s.table, f1);
    var s1 := PerformAll(s, [DelReq(f2)]);
    assert PerformAll(s, [DelReq(f2)]) == PerformAll(Perform(s, DelReq(f2)), []);
    DelKeepsInv(s, f2);
    ViewAt(s1.table, f2);
    assert VisitFd(s, f1, n, react, pending) == Ran(0, s1);
    assert VisitFd(s1, f2, n + 1, react, pending) == Skipped;
    assert [f1, f2][1..] == [f2] && [f2][1..] == [];
    var d1, d2 := View(s.table)[f1], View(s.table)[f2];
    assert Invoke(s, d1, n, react, pending) == (0, s1);
    assert [d1, d2][1..] == [d2] && [d2][1..] == [];
    assert BatchAsWritten(s, [d1, d2], 0, n, react, pending) == BatchAsWritten(s1, [d2], 0, n + 1, react, pending);
    var (code, s2) := Invoke(s1, d2, n + 1, react, pending);
    if code >= 0 {
      var s3 := if code > 0 then Enable(s2, f2, false, 0).state else s2;
      assert BatchAsWritten(s1, [d2], 0, n + 1, react, pending) == BatchAsWritten(s3, [], code, n + 2, react, pending);
    }
  }
}
