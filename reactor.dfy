/** The event reactor of server/event.c as a class: the static state of
    that file (`fdd_hash` and the epoll instance) becomes the fields of a
    `Reactor`, and the timer descriptors the kernel holds for it are a
    third field. Every method is proved to follow the functions of
    `Registry` and `Dispatch`, whose lemmas carry the properties. */
module Event {
  import opened CArith
  import opened Time
  import opened Registry
  import opened Dispatch

  /** `struct itimerspec`: the reload interval and the first expiry. */
  datatype Itimerspec = Itimerspec(intervalSec: int, intervalNsec: int, valueSec: int, valueNsec: int)

  const NULL: Context := 0

  /** A timer whose first expiry is zero is disarmed. */
  predicate Armed(its: Itimerspec) {
    its.valueSec != 0 || its.valueNsec != 0
  }

  /** What `timerfd_settime` accepts: both fields of both timespecs in
      range, no negative seconds. */
  predicate Accepted(its: Itimerspec) {
    its.intervalSec >= 0 && 0 <= its.intervalNsec < NSEC_PER_SEC &&
    its.valueSec >= 0 && 0 <= its.valueNsec < NSEC_PER_SEC
  }

  /** The expiry specification `timer_arm` builds for `ms` milliseconds:
      no interval (one shot), and the delay split into whole seconds and a
      nanosecond remainder with C division, the same split `time_add`
      makes of its milliseconds. */
  function ArmSpec(ms: int): (its: Itimerspec)
    ensures its.intervalSec == 0 && its.intervalNsec == 0
    ensures its.valueSec * NSEC_PER_SEC + its.valueNsec == ms * NSEC_PER_MSEC
    ensures ms >= 0 <==> Accepted(its)
    ensures ms == 0 <==> !Armed(its)
  {
    Itimerspec(0, 0, CDiv(ms, MSEC_PER_SEC), CMod(ms, MSEC_PER_SEC) * NSEC_PER_MSEC)
  }

  /** The expiry specification as the source builds it: `ms * 1000` in the
      nanosecond field alone. */
  function ArmSpecAsWritten(ms: int): Itimerspec {
    Itimerspec(0, 0, 0, ms * 1000)
  }

  /** `timerfd_settime(fd, 0, &its, NULL)`: `fault` stands for a kernel
      failure; a descriptor that is not a timer and a specification out of
      range are refused with EINVAL. */
  function SetTime(timers: map<Fd, Itimerspec>, fd: Fd, its: Itimerspec, fault: nat): (int, map<Fd, Itimerspec>) {
    if fault > 0 then (-(fault as int), timers)
    else if fd !in timers || !Accepted(its) then (-EINVAL, timers)
    else (0, timers[fd := its])
  }

  const DISARMED: Itimerspec := Itimerspec(0, 0, 0, 0)

  /** `sig_handler`: drain the pending signals; an interrupt or terminate
      signal makes the result the quit code. */
  method SigHandler(signals: seq<int>) returns (ret: int)
    ensures ret == SigResult(signals)
  {
    ret := 0;
    var i := 0;
    while i < |signals|
      invariant i <= |signals|
      invariant ret == SigResult(signals[..i])
    {
      if IsQuit(signals[i]) {
        ret := -EQUIT;
      }
      assert signals[..i + 1][..i] == signals[..i];
      i := i + 1;
    }
    assert signals[..i] == signals;
  }

  class Reactor {
    /** `fdd_hash`: one chain of `fd_data` nodes per bucket. */
    var fddHash: array<seq<FdData>>
    /** The interest list of the epoll instance `epfd`. */
    var interest: map<Fd, Events>
    /** The kernel timers behind the descriptors `timer_new` created. */
    var timers: map<Fd, Itimerspec>

    ghost predicate Valid()
      reads this, fddHash
    {
      fddHash.Length == FDD_HASH_SIZE && Wf(fddHash[..])
    }

    /** The registry state the methods are specified against. */
    ghost function Abs(): State
      reads this, fddHash
    {
      State(fddHash[..], interest)
    }

    /** `event_init` up to the signal descriptor: the table cleared (what
        the `memset` at its start is for) and a fresh epoll instance. */
    constructor ()
      ensures Valid() && fresh(fddHash)
      ensures Abs() == Empty() && timers == map[]
    {
      fddHash := new seq<FdData>[FDD_HASH_SIZE](_ => []);
      interest := map[];
      timers := map[];
      new;
      assert fddHash[..] == seq(FDD_HASH_SIZE, _ => []);
    }

    /** `event_init`: clear the table (the `memset`), create the epoll
        instance (which fails with `createErr` when that is not 0), block
        the handled signals (which fails with `maskErr`), and register the
        signal descriptor `sigfd` for reading, with `sig_handler` as its
        callback and no context. */
    method Init(createErr: nat, maskErr: nat, sigfd: Fd, allocFails: bool, fault: nat) returns (ret: int)
      requires fddHash.Length == FDD_HASH_SIZE
      modifies this, fddHash
      ensures Valid() && fddHash == old(fddHash) && timers == old(timers)
      ensures createErr > 0 ==> ret == -(createErr as int) && Abs() == Empty().(interest := old(interest))
      ensures createErr == 0 && maskErr > 0 ==> ret == -(maskErr as int) && Abs() == Empty()
      ensures createErr == 0 && maskErr == 0 ==>
        Step(ret, Abs()) == Add(Empty(), sigfd, false, SignalHandler, NULL, allocFails, fault)
    {
      for b := 0 to fddHash.Length
        invariant fddHash == old(fddHash) && interest == old(interest) && timers == old(timers)
        invariant forall j :: 0 <= j < b ==> fddHash[j] == []
      {
        fddHash[b] := [];
      }
      assert fddHash[..] == Empty().table;
      EmptyInv();
      if createErr > 0 {
        return -(createErr as int);
      }
      interest := map[];
      if maskErr > 0 {
        return -(maskErr as int);
      }
      ret := AddFd(sigfd, false, SignalHandler, NULL, allocFails, fault);
    }

    /** The walk along `fd`'s chain that `event_del_fd` and
        `event_enable_fd` make: the position of the first node for `fd`. */
    method Lookup(fd: Fd) returns (k: nat)
      requires Valid()
      ensures k == Find(Abs().table, fd)
    {
      var chain := fddHash[Hash(fd)];
      k := 0;
      while k < |chain| && chain[k].fd != fd
        invariant k <= |chain|
        invariant forall j :: 0 <= j < k ==> chain[j].fd != fd
      {
        k := k + 1;
      }
      FirstMatchIs(chain, fd, k);
    }

    /** `event_add_fd`, with the duplicate check: refuse a descriptor that
        is already registered, allocate, register the interest with the
        kernel, and on success link the node at the tail of its chain. */
    method AddFd(fd: Fd, pollWrite: bool, cb: Callback, cbData: Context, allocFails: bool, fault: nat)
      returns (ret: int)
      requires Valid()
      modifies this, fddHash
      ensures Valid() && fddHash == old(fddHash) && timers == old(timers)
      ensures Step(ret, Abs()) == Add(old(Abs()), fd, pollWrite, cb, cbData, allocFails, fault)
    {
      OperationsKeepWf(Abs(), fd, pollWrite, cb, cbData, allocFails, false, fault);
      var k := Lookup(fd);
      if k < |fddHash[Hash(fd)]| {
        return -EEXIST;
      }
      if allocFails {
        return -ENOMEM;
      }
      var node := FdData(fd, pollWrite, true, cb, cbData);
      var (e, newInterest) := EpollCtl(interest, CtlAdd, fd, EventsFor(pollWrite), fault);
      if e < 0 {
        return e;
      }
      interest := newInterest;
      fddHash[Hash(fd)] := fddHash[Hash(fd)] + [node];
      ret := 0;
    }

    /** `event_del_fd`: drop the kernel interest, then unlink the first
        node for `fd` whatever the kernel said, returning its error. */
    method DelFd(fd: Fd, fault: nat) returns (ret: int)
      requires Valid()
      modifies this, fddHash
      ensures Valid() && fddHash == old(fddHash) && timers == old(timers)
      ensures Step(ret, Abs()) == Del(old(Abs()), fd, fault)
    {
      OperationsKeepWf(Abs(), fd, false, SignalHandler, NULL, false, false, fault);
      var (e, newInterest) := EpollCtl(interest, CtlDel, fd, EpollIn, fault);
      interest := newInterest;
      ret := e;
      var k := Lookup(fd);
      var chain := fddHash[Hash(fd)];
      if k < |chain| {
        fddHash[Hash(fd)] := chain[..k] + chain[k + 1..];
      }
    }

    /** `event_enable_fd_data` on the node at position `k` of bucket `b`. */
    method EnableFdData(b: nat, k: nat, enable: bool, fault: nat) returns (ret: int)
      requires Valid() && b < fddHash.Length && k < |fddHash[b]|
      modifies this, fddHash
      ensures Valid() && fddHash == old(fddHash) && timers == old(timers)
      ensures Step(ret, Abs()) == EnableData(old(Abs()), b, k, enable, fault)
    {
      var d := fddHash[b][k];
      if d.enabled == enable {
        return 0;
      }
      var op := if enable then CtlAdd else CtlDel;
      var (e, newInterest) := EpollCtl(interest, op, d.fd, EventsFor(d.pollWrite), fault);
      if e < 0 {
        return e;
      }
      WfSetEnabled(fddHash[..], b, k, enable);
      interest := newInterest;
      fddHash[b] := fddHash[b][k := d.(enabled := enable)];
      ret := 0;
    }

    /** `event_enable_fd`: ENOENT for an unregistered descriptor, otherwise
        `event_enable_fd_data` on its first node. */
    method EnableFd(fd: Fd, enable: bool, fault: nat) returns (ret: int)
      requires Valid()
      modifies this, fddHash
      ensures Valid() && fddHash == old(fddHash) && timers == old(timers)
      ensures Step(ret, Abs()) == Enable(old(Abs()), fd, enable, fault)
    {
      var k := Lookup(fd);
      if k == |fddHash[Hash(fd)]| {
        return -ENOENT;
      }
      ret := EnableFdData(Hash(fd), k, enable, fault);
    }

    /** The registry calls a collaborator's callback makes, in order. */
    method PerformRequests(qs: seq<Request>)
      requires Valid()
      modifies this, fddHash
      ensures Valid() && fddHash == old(fddHash) && timers == old(timers)
      ensures Abs() == PerformAll(old(Abs()), qs)
    {
      var j := 0;
      while j < |qs|
        invariant j <= |qs|
        invariant Valid() && fddHash == old(fddHash) && timers == old(timers)
        invariant PerformAll(old(Abs()), qs) == PerformAll(Abs(), qs[j..])
      {
        assert qs[j..][1..] == qs[j + 1..];
        match qs[j] {
          case AddReq(fd, pollWrite, cb, cbData) =>
            var _ := AddFd(fd, pollWrite, cb, cbData, false, 0);
          case DelReq(fd) =>
            var _ := DelFd(fd, 0);
          case EnableReq(fd, enable) =>
            var _ := EnableFd(fd, enable, 0);
        }
        j := j + 1;
      }
    }

    /** `fdd->cb(fdd->fd, fdd->cb_data)`: the n-th callback run. */
    method Call(d: FdData, n: nat, react: nat -> Reaction, pending: nat -> seq<int>) returns (code: int)
      requires Valid()
      modifies this, fddHash
      ensures Valid() && fddHash == old(fddHash) && timers == old(timers)
      ensures (code, Abs()) == Invoke(old(Abs()), d, n, react, pending)
    {
      if d.cb == SignalHandler {
        code := SigHandler(pending(n));
      } else {
        PerformRequests(react(n).requests);
        code := react(n).code;
      }
    }

    /** One ready descriptor of a wake-up: look it up again, and when it is
        still registered and enabled run its callback, disabling it when
        the callback asks to (a positive result). */
    method VisitReady(fd: Fd, n: nat, react: nat -> Reaction, pending: nat -> seq<int>) returns (ran: bool, code: int)
      requires Valid()
      modifies this, fddHash
      ensures Valid() && fddHash == old(fddHash) && timers == old(timers)
      ensures var v := VisitFd(old(Abs()), fd, n, react, pending);
        if ran then v == Ran(code, Abs()) else v == Skipped && Abs() == old(Abs())
    {
      var k := Lookup(fd);
      var b := Hash(fd);
      if k == |fddHash[b]| || !fddHash[b][k].enabled {
        return false, 0;
      }
      ran := true;
      code := Call(fddHash[b][k], n, react, pending);
      if code > 0 {
        var _ := EnableFd(fd, false, 0);
      }
    }

    /** The inner loop of `event_loop` over the descriptors of one wake-up;
        a negative result ends it at once. */
    method DispatchBatch(fds: seq<Fd>, ret0: int, n0: nat, react: nat -> Reaction, pending: nat -> seq<int>)
      returns (ret: int, n: nat)
      requires Valid()
      modifies this, fddHash
      ensures Valid() && fddHash == old(fddHash) && timers == old(timers)
      ensures BatchEnd(ret, Abs(), n) == Batch(old(Abs()), fds, ret0, n0, react, pending)
    {
      ret, n := ret0, n0;
      var i := 0;
      while i < |fds|
        invariant i <= |fds|
        invariant Valid() && fddHash == old(fddHash) && timers == old(timers)
        invariant Batch(old(Abs()), fds, ret0, n0, react, pending) == Batch(Abs(), fds[i..], ret, n, react, pending)
      {
        assert fds[i..][1..] == fds[i + 1..];
        var ran, code := VisitReady(fds[i], n, react, pending);
        if ran {
          n := n + 1;
          ret := code;
          if code < 0 {
            return;
          }
        }
        i := i + 1;
      }
    }

    /** `event_loop` over the supplied wake-ups. Each ready descriptor is
        looked up again before its callback runs, and skipped when it is no
        longer registered or no longer enabled. */
    method EventLoop(wakes: seq<Wake>, react: nat -> Reaction, pending: nat -> seq<int>) returns (end: LoopEnd)
      requires Valid()
      modifies this, fddHash
      ensures Valid() && fddHash == old(fddHash) && timers == old(timers)
      ensures (end, Abs()) == Run(old(Abs()), wakes, 0, 0, react, pending)
    {
      var ret := 0;
      var n: nat := 0;
      var w := 0;
      while w < |wakes|
        invariant w <= |wakes| && ret >= 0
        invariant Valid() && fddHash == old(fddHash) && timers == old(timers)
        invariant Run(old(Abs()), wakes, 0, 0, react, pending) == Run(Abs(), wakes[w..], ret, n, react, pending)
      {
        assert wakes[w..][1..] == wakes[w + 1..];
        match wakes[w] {
          case WaitFailed(errno) =>
            if errno != EINTR {
              return Returned(ret);
            }
          case Ready(fds) =>
            ret, n := DispatchBatch(fds, ret, n, react, pending);
            if ret < 0 {
              return Returned(ret);
            }
        }
        w := w + 1;
      }
      end := Waiting;
    }

    /** `timer_new`: create a kernel timer (its descriptor is `tfd`, or the
        creation fails with `createErr`), register it for reading with the
        given callback, and close it again if the registration fails. A
        descriptor the kernel hands out fresh is neither a timer already nor
        registered. */
    method TimerNew(cb: Callback, cbData: Context, tfd: Fd, createErr: nat, allocFails: bool, fault: nat)
      returns (ret: int)
      requires Valid()
      requires tfd !in timers && !Found(fddHash[..], tfd)
      modifies this, fddHash
      ensures Valid() && fddHash == old(fddHash)
      ensures createErr > 0 ==> ret == -(createErr as int) && Abs() == old(Abs()) && timers == old(timers)
      ensures createErr == 0 ==>
        var r := Add(old(Abs()), tfd, false, cb, cbData, allocFails, fault);
        && (r.ret < 0 ==> ret == r.ret && Abs() == old(Abs()) && timers == old(timers) - {tfd})
        && (r.ret == 0 ==> ret == tfd && Abs() == r.state && timers == old(timers)[tfd := DISARMED])
    {
      if createErr > 0 {
        return -(createErr as int);
      }
      timers := timers[tfd := DISARMED];
      ret := AddFd(tfd, false, cb, cbData, allocFails, fault);
      AddAppendsAtTail(old(Abs()), tfd, false, cb, cbData, allocFails, fault);
      if ret < 0 {
        timers := timers - {tfd};
        return ret;
      }
      ret := tfd;
    }

    /** `timer_arm`: set a one-shot expiry `ms` milliseconds ahead; 0
        disarms. The registry is untouched. */
    method TimerArm(fd: Fd, ms: int, fault: nat) returns (ret: int)
      modifies this
      ensures fddHash == old(fddHash) && interest == old(interest)
      ensures (ret, timers) == SetTime(old(timers), fd, ArmSpec(ms), fault)
    {
      var its := ArmSpec(ms);
      var (e, newTimers) := SetTime(timers, fd, its, fault);
      timers := newTimers;
      ret := e;
    }
  }

  /** Arming an existing timer: any delay that is not negative is accepted,
      and the timer is then armed exactly when the delay is not zero; a
      negative delay is refused with EINVAL and changes nothing. */
  lemma ArmOutcome(timers: map<Fd, Itimerspec>, fd: Fd, ms: int)
    requires fd in timers
    ensures var (e, t) := SetTime(timers, fd, ArmSpec(ms), 0);
      && (e == 0 <==> ms >= 0)
      && (e == 0 ==> t == timers[fd := ArmSpec(ms)] && (Armed(t[fd]) <==> ms != 0))
      && (e != 0 ==> e == -EINVAL && t == timers)
  {
  }

  /** As written, `timer_arm` puts `ms * 1000` into the nanosecond field
      alone: 1500 ms arms the timer for 1.5 ms, and from 1000000 ms on the
      field is out of range and the kernel refuses the call. */
  lemma ArmScaleAsWritten(timers: map<Fd, Itimerspec>, fd: Fd)
    requires fd in timers
    ensures var its := ArmSpecAsWritten(1500);
      its.valueSec * NSEC_PER_SEC + its.valueNsec == 1500000 != 1500 * 1000000
    ensures SetTime(timers, fd, ArmSpecAsWritten(1000000), 0).0 == -EINVAL
    ensures SetTime(timers, fd, ArmSpec(1000000), 0).0 == 0
  {
  }
}
