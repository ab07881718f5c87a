/** The descriptor registry of server/event.c as values: the 256 `fd_data`
    chains of `fdd_hash` and the interest list of the epoll instance, and
    what `event_add_fd`, `event_del_fd` and `event_enable_fd` do to them.
    The `Event.Reactor` class holds the same state in place and is proved
    to follow these functions. The lemmas show that the chained table
    refines an associative store keyed by descriptor (`View`) and keeps the
    kernel's interest list in step with the enabled registrations. */
module Registry {

  /** A file descriptor; descriptors are never negative. */
  type Fd = nat

  /** The opaque `cb_data` pointer, borrowed from the caller and never
      dereferenced by the registry. */
  type Context = int

  const FDD_HASH_SIZE: nat := 256

  // Linux errno values the registry returns, negated.
  const ENOENT: int := 2
  const EINTR: int := 4
  const EBADF: int := 9
  const ENOMEM: int := 12
  const EEXIST: int := 17
  const EINVAL: int := 22

  /** The callback function pointer `cb`: the reactor's own signal handler
      or one of the collaborators' callbacks, named by an identifier. */
  datatype Callback = SignalHandler | Client(id: int)

  /** `EPOLLIN` or `EPOLLOUT`, the one event an interest is registered for. */
  datatype Events = EpollIn | EpollOut

  /** One `struct fd_data` node (its `next` link is its place in the chain). */
  datatype FdData = FdData(fd: Fd, pollWrite: bool, enabled: bool, cb: Callback, cbData: Context)

  /** `fdd_hash` and the interest list of the epoll instance `epfd`. */
  datatype State = State(table: seq<seq<FdData>>, interest: map<Fd, Events>)

  /** What an operation returns (0 or a negative errno) and the state after it. */
  datatype Step = Step(ret: int, state: State)

  /** The bucket of a descriptor, `hash(fd)`. */
  function Hash(fd: Fd): (b: nat)
    ensures b < FDD_HASH_SIZE
  {
    fd % FDD_HASH_SIZE
  }

  function EventsFor(pollWrite: bool): Events {
    if pollWrite then EpollOut else EpollIn
  }

  /** The registry as `event_init` leaves it: every chain empty, no interest. */
  function Empty(): State {
    State(seq(FDD_HASH_SIZE, _ => []), map[])
  }

  /** Every node sits in the chain of its own descriptor's bucket. */
  ghost predicate WellHashed(t: seq<seq<FdData>>) {
    |t| == FDD_HASH_SIZE &&
    forall b, k :: 0 <= b < |t| && 0 <= k < |t[b]| ==> Hash(t[b][k].fd) == b
  }

  /** No chain holds two nodes for one descriptor. */
  ghost predicate Unique(t: seq<seq<FdData>>) {
    forall b, i, j :: 0 <= b < |t| && 0 <= i < j < |t[b]| ==> t[b][i].fd != t[b][j].fd
  }

  // ---------------------------------------------------------------------
  // The kernel's epoll_ctl, as far as the registry relies on it.

  datatype CtlOp = CtlAdd | CtlDel

  /** `epoll_ctl(epfd, op, fd, e)`: ADD refuses a descriptor already in the
      interest list with EEXIST, DEL refuses one not in it with ENOENT. A
      nonzero `fault` stands for any other error the kernel may report
      (EBADF, ENOMEM, ...), which leaves the interest list as it was. */
  function EpollCtl(interest: map<Fd, Events>, op: CtlOp, fd: Fd, ev: Events, fault: nat): (int, map<Fd, Events>) {
    if fault > 0 then (-(fault as int), interest)
    else match op
      case CtlAdd => if fd in interest then (-EEXIST, interest) else (0, interest[fd := ev])
      case CtlDel => if fd in interest then (0, interest - {fd}) else (-ENOENT, interest)
  }

  // ---------------------------------------------------------------------
  // Walking a chain.

  /** The position of the first node for `fd` in a chain, or its length
      when there is none: where the walks of `event_del_fd` and
      `event_enable_fd` stop. */
  function FirstMatch(chain: seq<FdData>, fd: Fd): (k: nat)
    ensures k <= |chain|
    ensures forall j :: 0 <= j < k ==> chain[j].fd != fd
    ensures k < |chain| ==> chain[k].fd == fd
  {
    if chain == [] || chain[0].fd == fd then 0 else 1 + FirstMatch(chain[1..], fd)
  }

  /** The three properties of FirstMatch determine it. */
  lemma FirstMatchIs(chain: seq<FdData>, fd: Fd, k: nat)
    requires k <= |chain|
    requires forall j :: 0 <= j < k ==> chain[j].fd != fd
    requires k < |chain| ==> chain[k].fd == fd
    ensures FirstMatch(chain, fd) == k
  {
  }

  /** The position of `fd`'s node in its bucket (the bucket's length if none). */
  function Find(t: seq<seq<FdData>>, fd: Fd): nat
    requires |t| == FDD_HASH_SIZE
  {
    FirstMatch(t[Hash(fd)], fd)
  }

  predicate Found(t: seq<seq<FdData>>, fd: Fd)
    requires |t| == FDD_HASH_SIZE
  {
    Find(t, fd) < |t[Hash(fd)]|
  }

  /** The registration the table holds for `fd`. */
  function Node(t: seq<seq<FdData>>, fd: Fd): (d: FdData)
    requires |t| == FDD_HASH_SIZE && Found(t, fd)
    ensures d.fd == fd
  {
    t[Hash(fd)][Find(t, fd)]
  }

  // ---------------------------------------------------------------------
  // Chain edits.

  /** Links `d` at the tail of its bucket's chain. */
  function Append(t: seq<seq<FdData>>, d: FdData): seq<seq<FdData>>
    requires |t| == FDD_HASH_SIZE
  {
    t[Hash(d.fd) := t[Hash(d.fd)] + [d]]
  }

  /** Unlinks the first node for `fd`, if there is one. */
  function Unlink(t: seq<seq<FdData>>, fd: Fd): seq<seq<FdData>>
    requires |t| == FDD_HASH_SIZE
  {
    var c := t[Hash(fd)];
    var k := FirstMatch(c, fd);
    if k < |c| then t[Hash(fd) := c[..k] + c[k + 1..]] else t
  }

  /** Sets the `enabled` flag of the node at position `k` of bucket `b`. */
  function SetEnabled(t: seq<seq<FdData>>, b: nat, k: nat, enable: bool): seq<seq<FdData>>
    requires b < |t| && k < |t[b]|
  {
    t[b := t[b][k := t[b][k].(enabled := enable)]]
  }

  // ---------------------------------------------------------------------
  // The operations.

  /** `event_add_fd` as the source writes it: allocate the node (ENOMEM if
      that fails), register the interest with the kernel, and only when
      the kernel accepts it link the node, enabled, at the tail of its
      bucket. */
  function AddAsWritten(s: State, fd: Fd, pollWrite: bool, cb: Callback, cbData: Context,
                        allocFails: bool, fault: nat): (r: Step)
    requires |s.table| == FDD_HASH_SIZE
    ensures |r.state.table| == FDD_HASH_SIZE
  {
    if allocFails then Step(-ENOMEM, s)
    else
      var (e, interest) := EpollCtl(s.interest, CtlAdd, fd, EventsFor(pollWrite), fault);
      if e < 0 then Step(e, s)
      else Step(0, State(Append(s.table, FdData(fd, pollWrite, true, cb, cbData)), interest))
  }

  /** `event_add_fd` keeping at most one registration per descriptor: a
      descriptor that already has a registration is refused with EEXIST,
      even when that registration is disabled and so absent from the
      kernel's interest list. Otherwise as written. */
  function Add(s: State, fd: Fd, pollWrite: bool, cb: Callback, cbData: Context,
               allocFails: bool, fault: nat): (r: Step)
    requires |s.table| == FDD_HASH_SIZE
    ensures |r.state.table| == FDD_HASH_SIZE
  {
    if Found(s.table, fd) then Step(-EEXIST, s)
    else AddAsWritten(s, fd, pollWrite, cb, cbData, allocFails, fault)
  }

  /** `event_del_fd`: ask the kernel to drop the interest, then unlink the
      first node for `fd` whether or not the kernel agreed; the kernel's
      error, if any, is what is returned. */
  function Del(s: State, fd: Fd, fault: nat): (r: Step)
    requires |s.table| == FDD_HASH_SIZE
    ensures |r.state.table| == FDD_HASH_SIZE
  {
    var (e, interest) := EpollCtl(s.interest, CtlDel, fd, EpollIn, fault);
    Step(e, State(Unlink(s.table, fd), interest))
  }

  /** `event_enable_fd_data` on the node at position `k` of bucket `b`:
      nothing to do when the flag already has the wanted value; otherwise
      ADD (to enable) or DEL (to disable) the interest, and flip the flag
      only if the kernel accepted. */
  function EnableData(s: State, b: nat, k: nat, enable: bool, fault: nat): (r: Step)
    requires b < |s.table| && k < |s.table[b]|
    ensures |r.state.table| == |s.table|
  {
    var d := s.table[b][k];
    if d.enabled == enable then Step(0, s)
    else
      var (e, interest) := EpollCtl(s.interest, if enable then CtlAdd else CtlDel, d.fd, EventsFor(d.pollWrite), fault);
      if e < 0 then Step(e, s)
      else Step(0, State(SetEnabled(s.table, b, k, enable), interest))
  }

  /** `event_enable_fd`: ENOENT when no node holds `fd`, otherwise
      `event_enable_fd_data` on the first node that does. */
  function Enable(s: State, fd: Fd, enable: bool, fault: nat): (r: Step)
    requires |s.table| == FDD_HASH_SIZE
    ensures |r.state.table| == FDD_HASH_SIZE
  {
    if !Found(s.table, fd) then Step(-ENOENT, s)
    else EnableData(s, Hash(fd), Find(s.table, fd), enable, fault)
  }

  // ---------------------------------------------------------------------
  // Direct properties of the operations.

  /** `event_add_fd` succeeds exactly when the descriptor is new, the
      allocation succeeds and the kernel accepts the interest; it then
      links one new enabled node carrying the given direction, callback
      and context at the tail of bucket `fd % 256` and leaves every other
      bucket alone. Any failure returns a negative errno and changes
      nothing. */
  lemma AddAppendsAtTail(s: State, fd: Fd, pollWrite: bool, cb: Callback, cbData: Context,
                         allocFails: bool, fault: nat)
    requires |s.table| == FDD_HASH_SIZE
    ensures var r := Add(s, fd, pollWrite, cb, cbData, allocFails, fault);
      && (r.ret == 0 <==> !Found(s.table, fd) && !allocFails && fault == 0 && fd !in s.interest)
      && (r.ret != 0 ==> r.ret < 0 && r.state == s)
      && (Found(s.table, fd) ==> r.ret == -EEXIST)
      && (!Found(s.table, fd) && allocFails ==> r.ret == -ENOMEM)
      && (!Found(s.table, fd) && !allocFails && fault > 0 ==> r.ret == -(fault as int))
      && (r.ret == 0 ==>
            && |r.state.table| == FDD_HASH_SIZE
            && r.state.table[Hash(fd)] == s.table[Hash(fd)] + [FdData(fd, pollWrite, true, cb, cbData)]
            && (forall b :: 0 <= b < FDD_HASH_SIZE && b != Hash(fd) ==> r.state.table[b] == s.table[b])
            && r.state.interest == s.interest[fd := EventsFor(pollWrite)])
  {
  }

  /** `event_del_fd` unlinks the first node for `fd` and keeps the rest of
      its chain in order, even when the kernel refused the DEL (whose error
      it then returns); with no node for `fd` the table is unchanged. */
  lemma DelUnlinksFirst(s: State, fd: Fd, fault: nat)
    requires |s.table| == FDD_HASH_SIZE
    ensures var r := Del(s, fd, fault);
      var c := s.table[Hash(fd)];
      var k := FirstMatch(c, fd);
      && (fault > 0 ==> r.ret == -(fault as int))
      && (fault == 0 && fd !in s.interest ==> r.ret == -ENOENT)
      && (r.ret == 0 <==> fault == 0 && fd in s.interest)
      && |r.state.table| == FDD_HASH_SIZE
      && (k < |c| ==> r.state.table[Hash(fd)] == c[..k] + c[k + 1..])
      && (k == |c| ==> r.state.table == s.table)
      && (forall b :: 0 <= b < FDD_HASH_SIZE && b != Hash(fd) ==> r.state.table[b] == s.table[b])
  {
  }

  /** `event_enable_fd`: ENOENT and no change for an unknown descriptor;
      success and no change when the flag already has the wanted value;
      otherwise the flag changes exactly when the kernel call succeeds. */
  lemma EnableCases(s: State, fd: Fd, enable: bool, fault: nat)
    requires |s.table| == FDD_HASH_SIZE
    ensures var r := Enable(s, fd, enable, fault);
      && (!Found(s.table, fd) ==> r == Step(-ENOENT, s))
      && (Found(s.table, fd) && Node(s.table, fd).enabled == enable ==> r == Step(0, s))
      && (Found(s.table, fd) && Node(s.table, fd).enabled != enable ==>
            && r.ret <= 0
            && (r.ret < 0 ==> r.state == s)
            && (r.ret == 0 ==> r.state.table == SetEnabled(s.table, Hash(fd), Find(s.table, fd), enable)))
  {
  }

  /** Enabling or disabling twice is the same as doing it once: the second
      call finds the flag already set and does nothing. */
  lemma EnableIdempotent(s: State, fd: Fd, enable: bool, fault1: nat, fault2: nat)
    requires |s.table| == FDD_HASH_SIZE
    requires Enable(s, fd, enable, fault1).ret == 0
    ensures var s1 := Enable(s, fd, enable, fault1).state;
      |s1.table| == FDD_HASH_SIZE && Enable(s1, fd, enable, fault2) == Step(0, s1)
  {
    var s1 := Enable(s, fd, enable, fault1).state;
    var c := s.table[Hash(fd)];
    var k := Find(s.table, fd);
    if Node(s.table, fd).enabled != enable {
      var c1 := s1.table[Hash(fd)];
      assert c1 == c[k := c[k].(enabled := enable)];
      FirstMatchIs(c1, fd, k);
    }
  }

  // ---------------------------------------------------------------------
  // How the chain walk answers after each kind of edit.

  lemma FirstMatchAppend(c: seq<FdData>, d: FdData, x: Fd)
    ensures FirstMatch(c + [d], x) ==
      if FirstMatch(c, x) < |c| then FirstMatch(c, x) else if d.fd == x then |c| else |c| + 1
  {
    var k := FirstMatch(c, x);
    var c' := c + [d];
    if k < |c| {
      FirstMatchIs(c', x, k);
    } else if d.fd == x {
      FirstMatchIs(c', x, |c|);
    } else {
      FirstMatchIs(c', x, |c| + 1);
    }
  }

  lemma FirstMatchRemove(c: seq<FdData>, k0: nat, x: Fd)
    requires k0 < |c| && c[k0].fd != x
    ensures var k := FirstMatch(c, x);
      FirstMatch(c[..k0] + c[k0 + 1..], x) == if k < k0 then k else k - 1
  {
    var k := FirstMatch(c, x);
    var c' := c[..k0] + c[k0 + 1..];
    assert forall j :: 0 <= j < k0 ==> c'[j] == c[j];
    assert forall j :: k0 <= j < |c'| ==> c'[j] == c[j + 1];
    FirstMatchIs(c', x, if k < k0 then k else k - 1);
  }

  lemma FirstMatchRemoveOnly(c: seq<FdData>, k0: nat)
    requires k0 < |c|
    requires forall j :: 0 <= j < |c| && j != k0 ==> c[j].fd != c[k0].fd
    ensures FirstMatch(c[..k0] + c[k0 + 1..], c[k0].fd) == |c| - 1
  {
    var c' := c[..k0] + c[k0 + 1..];
    assert forall j :: 0 <= j < k0 ==> c'[j] == c[j];
    assert forall j :: k0 <= j < |c'| ==> c'[j] == c[j + 1];
    FirstMatchIs(c', c[k0].fd, |c| - 1);
  }

  lemma FirstMatchSameFds(c: seq<FdData>, c': seq<FdData>, x: Fd)
    requires |c| == |c'| && forall j :: 0 <= j < |c| ==> c[j].fd == c'[j].fd
    ensures FirstMatch(c', x) == FirstMatch(c, x)
  {
    FirstMatchIs(c', x, FirstMatch(c, x));
  }

  // ---------------------------------------------------------------------
  // The table as an associative store.

  /** Every descriptor that has a node somewhere in the table. */
  ghost function AllFds(t: seq<seq<FdData>>): set<Fd> {
    set b, k | 0 <= b < |t| && 0 <= k < |t[b]| :: t[b][k].fd
  }

  /** The table read as a map from descriptor to registration: each
      descriptor the chain walk finds, with the node it finds. */
  ghost function View(t: seq<seq<FdData>>): map<Fd, FdData>
    requires |t| == FDD_HASH_SIZE
  {
    map fd | fd in AllFds(t) && Found(t, fd) :: Node(t, fd)
  }

  lemma ViewAt(t: seq<seq<FdData>>, fd: Fd)
    requires |t| == FDD_HASH_SIZE
    ensures fd in View(t) <==> Found(t, fd)
    ensures fd in View(t) ==> View(t)[fd] == Node(t, fd)
  {
    if Found(t, fd) {
      assert t[Hash(fd)][Find(t, fd)].fd == fd;
      assert fd in AllFds(t);
    }
  }

  /** Linking a new node at the tail registers exactly that node. */
  lemma {:induction false} ViewAppend(t: seq<seq<FdData>>, d: FdData)
    requires |t| == FDD_HASH_SIZE && !Found(t, d.fd)
    ensures |Append(t, d)| == FDD_HASH_SIZE
    ensures View(Append(t, d)) == View(t)[d.fd := d]
  {
    var t' := Append(t, d);
    var want := View(t)[d.fd := d];
    forall x
      ensures x in View(t') <==> x in want
      ensures x in want ==> View(t')[x] == want[x]
    {
      ViewAt(t, x);
      ViewAt(t', x);
      if Hash(x) == Hash(d.fd) {
        FirstMatchAppend(t[Hash(x)], d, x);
      }
    }
    assert View(t').Keys == want.Keys;
  }

  /** Unlinking the only node for `fd` removes `fd` and nothing else. */
  lemma {:induction false} ViewUnlink(t: seq<seq<FdData>>, fd: Fd)
    requires |t| == FDD_HASH_SIZE && Unique(t)
    ensures |Unlink(t, fd)| == FDD_HASH_SIZE
    ensures View(Unlink(t, fd)) == View(t) - {fd}
  {
    var t' := Unlink(t, fd);
    var want := View(t) - {fd};
    forall x
      ensures x in View(t') <==> x in want
      ensures x in want ==> View(t')[x] == want[x]
    {
      ViewAt(t, x);
      ViewAt(t', x);
      UnlinkAt(t, fd, x);
    }
    assert View(t').Keys == want.Keys;
  }

  /** After unlinking `fd`, the walk for any other descriptor finds what
      it found before, and the walk for `fd` finds nothing. */
  lemma UnlinkAt(t: seq<seq<FdData>>, fd: Fd, x: Fd)
    requires |t| == FDD_HASH_SIZE && Unique(t)
    ensures |Unlink(t, fd)| == FDD_HASH_SIZE
    ensures Found(Unlink(t, fd), x) <==> Found(t, x) && x != fd
    ensures Found(Unlink(t, fd), x) ==> Node(Unlink(t, fd), x) == Node(t, x)
  {
    var c := t[Hash(fd)];
    var k0 := FirstMatch(c, fd);
    if k0 < |c| && Hash(x) == Hash(fd) {
      if x == fd {
        FirstMatchRemoveOnly(c, k0);
      } else {
        FirstMatchRemove(c, k0, x);
      }
    }
  }

  /** Flipping the flag of `fd`'s node changes that registration's flag only. */
  lemma {:induction false} ViewSetEnabled(t: seq<seq<FdData>>, fd: Fd, enable: bool)
    requires |t| == FDD_HASH_SIZE && Found(t, fd)
    ensures |SetEnabled(t, Hash(fd), Find(t, fd), enable)| == FDD_HASH_SIZE
    ensures View(SetEnabled(t, Hash(fd), Find(t, fd), enable)) == View(t)[fd := Node(t, fd).(enabled := enable)]
  {
    var t' := SetEnabled(t, Hash(fd), Find(t, fd), enable);
    var want := View(t)[fd := Node(t, fd).(enabled := enable)];
    forall x
      ensures x in View(t') <==> x in want
      ensures x in want ==> View(t')[x] == want[x]
    {
      ViewAt(t, x);
      ViewAt(t', x);
      if Hash(x) == Hash(fd) {
        FirstMatchSameFds(t[Hash(x)], t'[Hash(x)], x);
      }
    }
    assert View(t').Keys == want.Keys;
  }

  // ---------------------------------------------------------------------
  // Invariants.

  /** The table's shape: nodes hashed to their own bucket, one per descriptor. */
  ghost predicate Wf(t: seq<seq<FdData>>) {
    WellHashed(t) && Unique(t)
  }

  /** The interest list the kernel should hold for a registry: one entry
      per enabled registration, for the event its direction asks for. */
  ghost function Expected(v: map<Fd, FdData>): map<Fd, Events> {
    map fd | fd in v && v[fd].enabled :: EventsFor(v[fd].pollWrite)
  }

  /** The kernel's interest list matches the enabled registrations. */
  ghost predicate Consistent(s: State) {
    |s.table| == FDD_HASH_SIZE && s.interest == Expected(View(s.table))
  }

  ghost predicate Inv(s: State) {
    Wf(s.table) && Consistent(s)
  }

  lemma ExpectedUpdate(v: map<Fd, FdData>, fd: Fd, d: FdData)
    ensures Expected(v[fd := d]) ==
      if d.enabled then Expected(v)[fd := EventsFor(d.pollWrite)] else Expected(v) - {fd}
  {
    var lhs := Expected(v[fd := d]);
    var rhs := if d.enabled then Expected(v)[fd := EventsFor(d.pollWrite)] else Expected(v) - {fd};
    assert lhs.Keys == rhs.Keys;
  }

  lemma ExpectedRemove(v: map<Fd, FdData>, fd: Fd)
    ensures Expected(v - {fd}) == Expected(v) - {fd}
  {
    assert Expected(v - {fd}).Keys == (Expected(v) - {fd}).Keys;
  }

  lemma WfAppend(t: seq<seq<FdData>>, d: FdData)
    requires Wf(t) && !Found(t, d.fd)
    ensures Wf(Append(t, d))
  {
    var c := t[Hash(d.fd)];
    assert forall j :: 0 <= j < |c| ==> c[j].fd != d.fd;
  }

  lemma WfUnlink(t: seq<seq<FdData>>, fd: Fd)
    requires Wf(t)
    ensures Wf(Unlink(t, fd))
  {
    var c := t[Hash(fd)];
    var k := FirstMatch(c, fd);
    if k < |c| {
      var c' := c[..k] + c[k + 1..];
      assert forall j :: 0 <= j < k ==> c'[j] == c[j];
      assert forall j :: k <= j < |c'| ==> c'[j] == c[j + 1];
    }
  }

  lemma WfSetEnabled(t: seq<seq<FdData>>, b: nat, k: nat, enable: bool)
    requires Wf(t) && b < |t| && k < |t[b]|
    ensures Wf(SetEnabled(t, b, k, enable))
  {
  }

  /** Every operation keeps the table's shape, whatever the kernel answers. */
  lemma {:induction false} OperationsKeepWf(s: State, fd: Fd, pollWrite: bool, cb: Callback, cbData: Context,
                                            allocFails: bool, enable: bool, fault: nat)
    requires Wf(s.table)
    ensures Wf(Add(s, fd, pollWrite, cb, cbData, allocFails, fault).state.table)
    ensures Wf(Del(s, fd, fault).state.table)
    ensures Wf(Enable(s, fd, enable, fault).state.table)
  {
    if !Found(s.table, fd) {
      WfAppend(s.table, FdData(fd, pollWrite, true, cb, cbData));
    }
    WfUnlink(s.table, fd);
    if Found(s.table, fd) {
      WfSetEnabled(s.table, Hash(fd), Find(s.table, fd), enable);
    }
  }

  /** `event_add_fd` on a consistent registry: on success the store gains
      exactly the new enabled registration and the kernel its interest; on
      failure nothing changes. The registry stays consistent. */
  lemma {:induction false} AddKeepsInv(s: State, fd: Fd, pollWrite: bool, cb: Callback, cbData: Context,
                                       allocFails: bool, fault: nat)
    requires Inv(s)
    ensures var r := Add(s, fd, pollWrite, cb, cbData, allocFails, fault);
      && Inv(r.state)
      && (r.ret == 0 <==> fd !in View(s.table) && !allocFails && fault == 0)
      && (r.ret == 0 ==> View(r.state.table) == View(s.table)[fd := FdData(fd, pollWrite, true, cb, cbData)])
      && (r.ret != 0 ==> r.ret < 0 && r.state == s)
      && (fd in View(s.table) ==> r.ret == -EEXIST)
      && (fd !in View(s.table) && allocFails ==> r.ret == -ENOMEM)
      && (fd !in View(s.table) && !allocFails && fault > 0 ==> r.ret == -(fault as int))
  {
    ViewAt(s.table, fd);
    var r := Add(s, fd, pollWrite, cb, cbData, allocFails, fault);
    if !Found(s.table, fd) && !allocFails && fault == 0 {
      var d := FdData(fd, pollWrite, true, cb, cbData);
      assert fd !in s.interest;
      assert r.state == State(Append(s.table, d), s.interest[fd := EventsFor(pollWrite)]);
      WfAppend(s.table, d);
      ViewAppend(s.table, d);
      ExpectedUpdate(View(s.table), fd, d);
    }
  }

  /** `event_del_fd` on a consistent registry, the kernel reporting no
      failure of its own: the descriptor leaves the store and the kernel's
      interest list. The return value is 0 exactly when the registration
      existed and was enabled; a disabled registration is removed too but
      reported as ENOENT, because its interest was already dropped. */
  lemma {:induction false} DelKeepsInv(s: State, fd: Fd)
    requires Inv(s)
    ensures var r := Del(s, fd, 0);
      && Inv(r.state)
      && View(r.state.table) == View(s.table) - {fd}
      && (r.ret == 0 <==> fd in View(s.table) && View(s.table)[fd].enabled)
      && (r.ret != 0 ==> r.ret == -ENOENT)
  {
    var r := Del(s, fd, 0);
    var v := View(s.table);
    ViewAt(s.table, fd);
    assert fd in s.interest <==> fd in v && v[fd].enabled;
    var t' := Unlink(s.table, fd);
    assert r == Step(if fd in s.interest then 0 else -ENOENT, State(t', s.interest - {fd}));
    WfUnlink(s.table, fd);
    ViewUnlink(s.table, fd);
    ExpectedRemove(v, fd);
    assert Consistent(r.state);
  }

  /** `event_enable_fd` on a consistent registry: ENOENT for an unknown
      descriptor; otherwise success unless the kernel fails a call that was
      needed, and on success the registration's flag is the wanted one and
      the kernel's interest follows it. */
  lemma {:induction false} EnableKeepsInv(s: State, fd: Fd, enable: bool, fault: nat)
    requires Inv(s)
    ensures var r := Enable(s, fd, enable, fault);
      && Inv(r.state)
      && (fd !in View(s.table) ==> r.ret == -ENOENT && r.state == s)
      && (fd in View(s.table) ==>
            r.ret == (if View(s.table)[fd].enabled != enable && fault > 0 then -(fault as int) else 0))
      && (r.ret == 0 ==> View(r.state.table) == View(s.table)[fd := View(s.table)[fd].(enabled := enable)])
      && (r.ret != 0 ==> r.state == s)
  {
    ViewAt(s.table, fd);
    var r := Enable(s, fd, enable, fault);
    if Found(s.table, fd) {
      var d := Node(s.table, fd);
      if d.enabled == enable {
        assert View(s.table)[fd := d.(enabled := enable)] == View(s.table);
      } else if fault == 0 {
        assert r.ret == 0;
        assert r.state.table == SetEnabled(s.table, Hash(fd), Find(s.table, fd), enable);
        assert r.state.interest == if enable then s.interest[fd := EventsFor(d.pollWrite)] else s.interest - {fd};
        WfSetEnabled(s.table, Hash(fd), Find(s.table, fd), enable);
        ViewSetEnabled(s.table, fd, enable);
        ExpectedUpdate(View(s.table), fd, d.(enabled := enable));
      }
    }
  }

  /** The registry `event_init` starts from is consistent and holds nothing. */
  lemma EmptyInv()
    ensures Inv(Empty()) && View(Empty().table) == map[]
  {
    var t := Empty().table;
    assert forall b :: 0 <= b < |t| ==> t[b] == [];
    assert AllFds(t) == {};
  }

  /** The registration `event_init` makes for the signal descriptor: on an
      empty registry it succeeds unless the allocation or the kernel fails,
      and leaves exactly that enabled registration, read interest only. */
  lemma {:induction false} FirstRegistration(fd: Fd, cb: Callback, cbData: Context, allocFails: bool, fault: nat)
    ensures var r := Add(Empty(), fd, false, cb, cbData, allocFails, fault);
      && Inv(r.state)
      && (r.ret == 0 <==> !allocFails && fault == 0)
      && (r.ret == 0 ==> View(r.state.table) == map[fd := FdData(fd, false, true, cb, cbData)]
                         && r.state.interest == map[fd := EpollIn])
      && (r.ret != 0 ==> r.state == Empty())
  {
    EmptyInv();
    AddKeepsInv(Empty(), fd, false, cb, cbData, allocFails, fault);
  }

  /** `event_add_fd` as written, on a descriptor that is registered but
      disabled: the kernel holds no interest for it any more, so the ADD
      succeeds and a second node for the same descriptor is linked behind
      the first. The checked `Add` refuses it with EEXIST instead. */
  lemma {:induction false} DisabledDescriptorAddedTwice(s: State, fd: Fd, pollWrite: bool, cb: Callback, cbData: Context)
    requires Inv(s) && fd in View(s.table) && !View(s.table)[fd].enabled
    ensures var r := AddAsWritten(s, fd, pollWrite, cb, cbData, false, 0);
      r.ret == 0 && !Unique(r.state.table)
    ensures Add(s, fd, pollWrite, cb, cbData, false, 0) == Step(-EEXIST, s)
  {
    ViewAt(s.table, fd);
    assert fd !in s.interest;
    var r := AddAsWritten(s, fd, pollWrite, cb, cbData, false, 0);
    var c := s.table[Hash(fd)];
    var c' := r.state.table[Hash(fd)];
    assert c' == c + [FdData(fd, pollWrite, true, cb, cbData)];
    assert c'[Find(s.table, fd)].fd == fd && c'[|c|].fd == fd;
  }
}
