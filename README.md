# mazec server core: event reactor and C helpers

This project is a Dafny model of two files of the mazec server.

`server/event.c` is a single-threaded epoll reactor. Descriptors are registered with a callback and a context in a
256-bucket chained hash table (`fdd_hash`, bucket `fd % 256`). Each registration is enabled or disabled, and epoll's
interest list follows that flag. `event_loop` waits for readiness and runs the callbacks. Each callback's result
steers the loop:

- a positive result disables the descriptor (one shot);
- zero keeps it;
- a negative result stops the loop, which returns that value.

Signals arrive through a signalfd whose callback, `sig_handler`, returns the quit code `-EQUIT` on an interrupt or a
terminate signal. Timers are timerfds registered like any other descriptor and armed with a delay in milliseconds.

`server/common.c` supplies the string and time helpers the server uses: `is_space`, `rstrip`, the BSD `strlcpy`,
`time_add`, `time_after` and `time_left`.

Layout:

- `carith.dfy` (`CArith`): C99 division and remainder, which truncate toward zero.
- `cstring.dfy` (`CString`): NUL-terminated buffers as `array<char>`; `rstrip` and `strlcpy` as methods with loops,
  proved against functions on the buffer contents.
- `timespec.dfy` (`Time`): `struct timespec` as a class updated in place by `TimeAdd`; the clock reading is the
  parameter `now`.
- `registry.dfy` (`Registry`): the registry and the kernel's interest list as a value `State`.
  - `Add`, `Del`, `EnableData` and `Enable` specify the registry operations.
  - `View` reads the chained table as a map from descriptor to registration.
  - `Inv` is the invariant those operations keep: nodes sit in their own bucket, there is one node per descriptor,
    and the kernel's interest list equals the enabled registrations.
- `dispatch.dfy` (`Dispatch`): what `event_loop` does, as functions `VisitFd`, `Batch` and `Run`, and the result
  of `sig_handler` (`SigResult`).
- `reactor.dfy` (`Event`): the static state of `event.c` as the class `Reactor`. `fdd_hash` is an array of 256
  chains, the epoll instance is an interest map, and the kernel timers are a map. Every method is proved to leave
  exactly the state the `Registry` and `Dispatch` functions describe.

The environment is passed in as data:

- `fault: nat` is a kernel error from `epoll_ctl` or `timerfd_settime` (0 means none).
- `allocFails` is a failing `malloc`.
- `createErr` and `maskErr` are failures of `epoll_create1`, `sigprocmask` and `timerfd_create`.
- `wakes` lists what `epoll_wait` reports.
- `react(n)` is the n-th callback run: the registry calls it makes and the code it returns.
- `pending(n)` lists the signals the signal descriptor yields when it is the n-th run.

The text of `event.c` does not compile as it stands: `ssi->signo` on a struct, case labels without `case`, `epdf`,
`fdd` taken by value in `event_enable_fd_data`, and the undefined `fd` at line 144. The model follows the evident
intent. The `memset` at line 67 has its size and fill arguments swapped, so it clears nothing. That is harmless
only because static storage starts zeroed; `Reactor.Init` clears the table.

The model follows the code except in four places, each listed under "## Findings" with a model of the code as
written beside the corrected one:

- `Registry.Add` refuses a descriptor that is already registered, so there is at most one registration per
  descriptor. `Event.Reactor.AddFd` implements this checked version.
- `Dispatch.Batch` looks each ready descriptor up again before calling it.
- `Dispatch.Retries` compares `errno` with EINTR.
- `Event.ArmSpec` splits the delay into seconds and nanoseconds.

A failed wait is modelled as the code has it. When `epoll_wait` fails with anything other than an interrupted call,
`event_loop` breaks out and returns its current `ret`. That value is never negative at that point, so the loop
reports such a failure as 0 or a positive code, not as a negative error. `Dispatch.WaitFailureEndsLoop` states
this.

## Model

| member | source | states |
|---|---|---|
| CArith.CDiv | server/common.c:108 | C division by a positive divisor truncates toward zero: the quotient brackets the dividend from below when it is not negative and from above when it is |
| CArith.CMod | server/common.c:109 | C remainder: quotient times divisor plus remainder is the dividend, the remainder is smaller than the divisor in magnitude and takes the dividend's sign |
| CString.StrLen | server/common.c:64 | `strlen`: the index of the first NUL, with no NUL before it |
| CString.Contents | server/common.c:60-67 | the C string a buffer holds contains no NUL and is followed by one |
| CString.IsSpace | server/common.c:14-17 | `is_space`: space, tab, CR and LF; the definition `TrimRight` is built on |
| CString.TrimRight | server/common.c:14-17 | the string with its trailing run of space, tab, CR and LF removed is a prefix, the removed tail is all whitespace, and the rest does not end in whitespace |
| CString.TrimRightIdempotent | server/common.c:60-67 | trimming twice is trimming once |
| CString.TrimRightUnique | server/common.c:64-65 | any split into a part not ending in whitespace plus an all-whitespace tail is the one the trim makes |
| CString.RStripped | server/common.c:60-67 | after `rstrip` the buffer's string is the trimmed string, the buffer length is kept, and only the byte that receives the new NUL changes |
| CString.RStripIdempotent | server/common.c:60-67 | a second `rstrip` changes nothing |
| CString.RStrip | server/common.c:60-67 | the in-place loop leaves exactly the buffer `RStripped` describes |
| CString.StrlcpyBuffer | server/common.c:69-85 | with size 0 the destination is untouched; otherwise it holds a NUL-terminated prefix of the source shorter than `size`, equal to the whole source exactly when the source is shorter than `size`, and no byte from `dest[size]` on changes |
| CString.StrlcpyWritten | server/common.c:75-79 | a destination with the source's first `min(strlen(src), size-1)` characters, a NUL after them and the old bytes beyond is the buffer `StrlcpyBuffer` describes |
| CString.Strlcpy | server/common.c:69-85 | returns `strlen(src)` whatever `size` is, and leaves the destination as `StrlcpyBuffer` describes |
| Time.Added | server/common.c:103-116 | the instant moves by exactly `ms` milliseconds, and a normalised timespec stays normalised for `ms >= 0` |
| Time.TimeAdd | server/common.c:103-116 | `time_add` updates the timespec in place to the pair `Added` gives |
| Time.TimeAfter | server/common.c:118-128 | `time_after`: the field-by-field comparison; `TimeAfterIsLater` states what it means |
| Time.TimeAfterIsLater | server/common.c:118-128 | on normalised timespecs, `time_after` holds exactly when `now` is a later instant than the deadline |
| Time.TimeLeft | server/common.c:130-141 | never negative, zero once the deadline is reached, otherwise within one millisecond of the time remaining |
| Time.PassedDeadlineHasNoTimeLeft | server/common.c:118-141 | a deadline `time_after` reports as passed has no time left |
| Registry.Hash | server/event.c:25-28 | the bucket of a descriptor is one of the 256 |
| Registry.FirstMatch | server/event.c:122-123 | the chain walk stops at the first node for the descriptor, or at the end when there is none |
| Registry.FirstMatchIs | server/event.c:154-155 | those three properties determine the position the walk stops at |
| Registry.AddAsWritten | server/event.c:85-112 | `event_add_fd` as written (allocate, kernel ADD, link at the tail); keeps 256 buckets. The as-written half of a finding; `DisabledDescriptorAddedTwice` states what it does wrong |
| Registry.Add | server/event.c:85-112 | `event_add_fd` with at most one registration per descriptor; keeps 256 buckets. The definition `AddAppendsAtTail`, `AddKeepsInv` and `Event.Reactor.AddFd` are proved against |
| Registry.Del | server/event.c:114-130 | `event_del_fd`; keeps 256 buckets. The definition `DelUnlinksFirst`, `DelKeepsInv` and `Event.Reactor.DelFd` are proved against |
| Registry.EnableData | server/event.c:132-148 | `event_enable_fd_data`; keeps the table size. The definition `Event.Reactor.EnableFdData` is proved against and `Enable` uses |
| Registry.Enable | server/event.c:150-159 | `event_enable_fd`; keeps 256 buckets. The definition `EnableCases`, `EnableIdempotent`, `EnableKeepsInv` and `Event.Reactor.EnableFd` are proved against |
| Registry.AddAppendsAtTail | server/event.c:85-112 | success exactly when the descriptor is new, the allocation succeeds and the kernel accepts; then one enabled node with the given direction, callback and context is linked at the tail of bucket `fd % 256`, every other bucket is unchanged, and the interest list gains the descriptor; on failure a negative code and no change: EEXIST for a descriptor already in the table, else ENOMEM when the allocation fails, else the kernel's own error |
| Registry.DelUnlinksFirst | server/event.c:114-130 | the first node for the descriptor is unlinked and the rest of its chain keeps its order, even when the kernel refused; a kernel failure returns its own error, a descriptor without kernel interest returns ENOENT, and 0 exactly when the kernel dropped the interest; with no node the table is unchanged |
| Registry.EnableCases | server/event.c:132-159 | ENOENT and no change for an unknown descriptor; 0 and no kernel call when the flag already has the target value; otherwise the flag changes exactly when the kernel call succeeds |
| Registry.EnableIdempotent | server/event.c:137-138 | enabling or disabling a second time succeeds and changes nothing |
| Registry.ViewAt | server/event.c:154-158 | a descriptor is in the map view exactly when the chain walk finds it, with the node the walk finds |
| Registry.ViewAppend | server/event.c:108-110 | linking a new node at the tail adds exactly that registration to the map view |
| Registry.ViewUnlink | server/event.c:122-127 | unlinking removes exactly that descriptor from the map view |
| Registry.ViewSetEnabled | server/event.c:146 | flipping the flag changes only that registration's flag in the map view |
| Registry.OperationsKeepWf | server/event.c:85-159 | add, delete and enable keep every node in its own bucket and one node per descriptor, whatever the kernel answers |
| Registry.AddKeepsInv | server/event.c:85-112 | on a consistent registry: success exactly when the descriptor is unregistered and neither allocation nor kernel fails; then the map view gains exactly the new enabled registration; failure returns a negative code (EEXIST for a registered descriptor, else ENOMEM, else the kernel's error) and changes nothing; consistency is kept |
| Registry.DelKeepsInv | server/event.c:114-130 | on a consistent registry, when the kernel reports no failure of its own: the descriptor leaves the map view and the interest list; 0 exactly when it was registered and enabled, ENOENT otherwise |
| Registry.EnableKeepsInv | server/event.c:132-159 | on a consistent registry: ENOENT for an unknown descriptor; otherwise 0 unless a needed kernel call fails; on success only the flag changes and the interest list follows it |
| Registry.EmptyInv | server/event.c:67 | the cleared registry is consistent and empty |
| Registry.FirstRegistration | server/event.c:81 | registering the signal descriptor on the cleared registry succeeds unless allocation or kernel fails, leaving exactly that enabled read registration |
| Registry.DisabledDescriptorAddedTwice | server/event.c:85-112 | as written, adding a registered but disabled descriptor succeeds and links a second node for it; the checked `Add` returns EEXIST and changes nothing |
| Dispatch.SigResult | server/event.c:30-60 | the handler's result is the quit code exactly when an interrupt or terminate signal was drained, and 0 otherwise |
| Dispatch.Batch | server/event.c:176-184 | a batch runs at most one callback per reported descriptor, and `ret` changes only when a callback ran |
| Dispatch.VisitFd | server/event.c:177-181 | one ready descriptor, looked up again; keeps 256 buckets. The definition `VisitKeepsInv`, the result lemmas and `Event.Reactor.VisitReady` are proved against |
| Dispatch.Run | server/event.c:163-187 | `event_loop`; keeps 256 buckets. The definition `RunKeepsInv`, `NegativeResultStopsLoop`, the signal and wait lemmas and `Event.Reactor.EventLoop` are proved against |
| Dispatch.BatchAsWritten | server/event.c:176-184 | the inner loop as written, calling the nodes captured at wake-up; keeps 256 buckets. The as-written half of a finding; `RemovedDescriptorStillDispatched` states what it does wrong |
| Dispatch.PerformAllKeepsInv | server/event.c:179 | the registry calls a callback makes keep the registry consistent |
| Dispatch.PerformAllOthersKeep | server/event.c:179 | calls about other descriptors leave a descriptor's registration as it was |
| Dispatch.VisitKeepsInv | server/event.c:177-181 | running a ready descriptor's callback keeps the registry consistent, and after a positive result the descriptor is disabled or gone |
| Dispatch.PositiveResultKeepsRegistration | server/event.c:180-181 | after a positive result, when the callback made no registry call about its own descriptor, the registration stays with the same direction, callback and context, and only its flag is cleared |
| Dispatch.PositiveResultDisables | server/event.c:180-181 | after a positive result the next visit to the same descriptor is skipped (one shot) |
| Dispatch.ZeroResultKeepsEnabled | server/event.c:179-183 | after a zero result the descriptor is still registered and enabled, with the same registration, unless its callback asked the registry about it |
| Dispatch.BatchKeepsInv | server/event.c:176-184 | a whole batch keeps the registry consistent |
| Dispatch.RunKeepsInv | server/event.c:163-187 | the loop keeps the registry consistent however it ends |
| Dispatch.BatchPrefix | server/event.c:176-184 | a batch whose first `k` visits ended without a negative result goes on from the state they left with the remaining descriptors |
| Dispatch.NegativeResultStopsLoop | server/event.c:169-186 | a negative result from the descriptor at any position of a wake-up, after visits that ended without one, ends the batch and the loop at once; the loop returns exactly that value on the state that callback left |
| Dispatch.QuitSignalStopsLoop | server/event.c:35-40 | an interrupt or terminate signal on the enabled signal descriptor stops the loop with `-EQUIT` |
| Dispatch.OtherSignalsContinue | server/event.c:41-59 | other signals leave the loop running with `ret` 0 and the registry untouched |
| Dispatch.WaitFailureEndsLoop | server/event.c:170-174 | an interrupted wait is retried; any other wait failure returns the current `ret` |
| Dispatch.AssignmentRetriesEveryFailure | server/event.c:172 | as written, the retry test holds for every errno, EBADF included |
| Dispatch.RemovedDescriptorStillDispatched | server/event.c:176-181 | when the first callback of a batch deletes the second descriptor, the loop as written still calls the second (two calls); the re-checking batch calls only the first |
| Event.ArmSpec | server/event.c:205-211 | one shot (zero interval); the expiry is exactly `ms` milliseconds; in range exactly when `ms >= 0`; disarms exactly when `ms` is 0 |
| Event.ArmOutcome | server/event.c:205-215 | arming an existing timer succeeds exactly for `ms >= 0`, and the timer is then armed exactly when `ms` is not 0; a negative delay gives EINVAL and no change |
| Event.ArmScaleAsWritten | server/event.c:211 | as written, 1500 ms arms 1.5 ms, and 1000000 ms is refused with EINVAL where the split form is accepted |
| Event.SigHandler | server/event.c:30-60 | the drain loop returns `SigResult` of the signals read |
| Event.Reactor.constructor | server/event.c:26 | a fresh reactor is the empty, well-formed registry with no timers |
| Event.Reactor.Init | server/event.c:62-83 | the table is cleared; an epoll creation or signal mask failure returns its error; otherwise the result is registering the signal descriptor on the empty registry |
| Event.Reactor.Lookup | server/event.c:154-155 | the walk returns the position of the first node for the descriptor in its bucket |
| Event.Reactor.AddFd | server/event.c:85-112 | returns and leaves what `Registry.Add` gives, keeping the table well formed |
| Event.Reactor.DelFd | server/event.c:114-130 | returns and leaves what `Registry.Del` gives, keeping the table well formed |
| Event.Reactor.EnableFdData | server/event.c:132-148 | returns and leaves what `Registry.EnableData` gives, keeping the table well formed |
| Event.Reactor.EnableFd | server/event.c:150-159 | returns and leaves what `Registry.Enable` gives, keeping the table well formed |
| Event.Reactor.PerformRequests | server/event.c:179 | the registry calls of a callback leave the state `PerformAll` gives |
| Event.Reactor.Call | server/event.c:179 | a callback run returns the code and leaves the state `Dispatch.Invoke` gives |
| Event.Reactor.VisitReady | server/event.c:177-181 | a ready descriptor is looked up again and skipped or run exactly as `VisitFd` says |
| Event.Reactor.DispatchBatch | server/event.c:176-184 | the inner loop ends with the `ret`, call count and state `Batch` gives |
| Event.Reactor.EventLoop | server/event.c:163-187 | the loop ends as `Run` says, on the state `Run` gives |
| Event.Reactor.TimerNew | server/event.c:189-203 | a creation failure returns its error; a failed registration returns its error and closes the timer; otherwise the timer's descriptor is returned, registered for reading |
| Event.Reactor.TimerArm | server/event.c:205-215 | sets the timer to `ArmSpec(ms)` as the kernel allows, touching no registration |

## Left out

- System calls (`epoll_create1`, `epoll_ctl`, `epoll_wait`, `signalfd`, `sigprocmask`, `read`, `timerfd_create`, `timerfd_settime`, `close`) are modelled only by their effect on the interest list and the timer map. Their failures are parameters.
- Child reaping and logging in `sig_handler` (`waitpid`, `log`) are I/O; only the result code is modelled.
- `emerg_exit`, `alloc_err`, `salloc`, `szalloc`, `srealloc`, `sfree` and `sstrdup` are wrappers over libc allocation and `exit` with no logic of their own.
- `time_now` reads the clock; its reading is the parameter `now`.
- Time.TimeAdd, Time.TimeLeft: `time_t` and `long` are unbounded integers, so overflow is not modelled.
- Registry.Hash: descriptors are natural numbers. A negative descriptor would index `fdd_hash` out of bounds in C, and `event_init` does not check the result of `signalfd`.
- CString.Strlcpy: overlapping source and destination are excluded (`dest != src`), as `strlcpy` requires.
- Dispatch.Perform: a callback's own registry calls run with no allocation failure and no kernel fault.
- Dispatch.VisitFd: the result of the disabling `event_enable_fd_data` call after a positive result is ignored by the source. The model makes that call with no kernel fault.
- Dispatch.Run: `EVENTS_MAX` (64) bounds a wake-up in the source; the supplied wake-ups are not bounded.
- Dispatch.EQUIT: `common.h` is not part of this model; the quit code is a constant above every errno.
- Registry.Consistent: kept only when `epoll_ctl` does not fail on DEL. After a failed DEL, `event_del_fd` unlinks the node while the kernel keeps the interest. `OperationsKeepWf` covers every kernel answer.
- Event.Reactor.TimerNew: the descriptor the kernel picks is the parameter `tfd`.

## Findings

| source | as written | input that shows it | evidently intended | confidence | as-written member | corrected member |
|---|---|---|---|---|---|---|
| server/event.c:211 | `its.it_value.tv_nsec = (long)milisecs * 1000` puts microseconds in the nanosecond field and no seconds | `timer_arm(fd, 1500)` fires after 1.5 ms; `timer_arm(fd, 1000000)` is refused with EINVAL | seconds `ms / 1000` and nanoseconds `(ms % 1000) * 1000000`, as `time_add` splits them | high, not executed | Event.ArmSpecAsWritten | Event.ArmSpec |
| server/event.c:172 | `if (errno = EINTR)` assigns, so the test is always true | `epoll_wait` failing with EBADF is retried forever | `errno == EINTR`: only an interrupted wait is retried | high, not executed | Dispatch.RetriesAsWritten | Dispatch.Retries |
| server/event.c:177-181 | the loop dispatches the node pointer captured at wake-up | two ready descriptors, the first callback calls `event_del_fd` on the second: the second's callback still runs, through a freed node | look each ready descriptor up again and skip it if it is gone or disabled | high, not executed | Dispatch.BatchAsWritten | Dispatch.Batch |
| server/event.c:85-112 | no check for an existing registration | register 5, disable it, register 5 again: the kernel ADD succeeds and a second node for 5 is linked | refuse a registered descriptor with EEXIST | medium, not executed | Registry.AddAsWritten | Registry.Add |
