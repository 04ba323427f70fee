# Socket handle ownership, in Dafny

This project models the two handle classes of the storage node's networking
layer, `SocketHandle` and `SocketFD`. Each is a move-only C++ class. It owns
one native socket value (`_handle`) and closes that value when the class
decides to. The two classes differ in two ways. `SocketHandle` closes
gracefully: SO_LINGER on for one second, shutdown of both directions,
non-blocking mode, then close. It throws `std::system_error` when asked to
bind or listen on an invalid handle. `SocketFD` closes with a single `close`
and answers `-1` in the same cases.

The Linux branch is modelled. The native type is `int` and the sentinel
`kInvalid` is `-1` (`Native.kInvalid`).

- `Native.dfy` (module `Native`) holds the shared pieces. The operating system
  is a class `Os` whose methods record each call as an `Event` (`Linger`,
  `Shutdown`, `NonBlock`, `Close`, `Bind`, `Listen`, `Accept`, `Socket`).
  The values those calls return are left open: `close`, `bind` and `listen`
  return 0 or -1, and `socket` and `accept` return any value from -1 up.
  `CloseSyscalls(policy, h)` lists the calls a close makes under the
  `Graceful` (`SocketHandle`) or `Plain` (`SocketFD`) policy. `CloseCount`
  counts the `close` calls of one value in a log.
- `SocketHandle.dfy` (module `SocketHandles`) and `SocketFD.dfy` (module
  `SocketFDs`) hold the two classes, one field `handle` each. Every defined
  member of the source is a member here, including the destructor, written as
  `Destroy`, and `operator bool`, written as `ToBool`. The exceptions are
  `throw_last_error`, which becomes the `Err` value the throwing member
  returns, the declared but undefined ordering operators, and the deleted
  members (see "## Left out").
  Each method's postcondition gives the new `handle` and the calls appended
  to `os.log`. A thrown `std::system_error` is an `Err` result. The default
  arguments of `reset_handle` (`kInvalid`) and `listen_handle` (backlog 10)
  are Dafny default parameters.
- `Ownership.dfy` (module `Ownership`) covers many handles at once. A
  `World` maps each live handle object (a slot) to the value it holds. It also
  keeps the call log and the multiset of values ever adopted. Each operation
  (`Op`) makes the calls the class methods make and changes the slots the way
  the class methods change `handle`. This holds for either close policy.
  A `World` also keeps the multiset of values handed back by
  `release_handle`. The invariant `Inv` is the classes' ownership promise: no
  two live handles hold the same valid value, and each adoption of a value is
  accounted for exactly once, by one `close`, by the live handle still holding
  it, or by one release. It is proved to hold over every feasible program.
  Once no handle is live, each adoption has been closed exactly once, unless
  it was released. An operation is
  feasible only when the value it adopts is held by no live handle. The
  explicit constructor demands this of its caller ("requires taking
  ownership"), and `socket()` and `accept()` never return an open descriptor.

The classes keep only `_handle`: there is no bound or listening state,
`accept` is called once, and `create_socket_handle`/`create_socket_fd` throw
when `socket()` fails.

## Model

| member | source | states |
|---|---|---|
| `SocketHandles.SocketHandle.constructor` | src/net/include/SocketHandle.hpp:43-47 | a default-constructed handle holds `kInvalid` and is not valid |
| `SocketHandles.SocketHandle.FromNative` | src/net/src/SocketHandle.cpp:14 | construction from a native value owns exactly that value |
| `SocketHandles.SocketHandle.Move` | src/net/include/SocketHandle.hpp:52 | move construction takes the source's value and leaves the source holding `kInvalid` |
| `SocketHandles.SocketHandle.MoveAssign` | src/net/src/SocketHandle.cpp:16-22 | self-assignment changes nothing and calls nothing; otherwise the destination's own value is closed (graceful protocol), then the destination takes the source's value and the source becomes `kInvalid` |
| `SocketHandles.SocketHandle.Destroy` | src/net/src/SocketHandle.cpp:24-26 | the destructor runs the same close as `close_handle` |
| `SocketHandles.SocketHandle.NativeHandle` | src/net/src/SocketHandle.cpp:28-30 | the accessor yields `kInvalid` exactly when the handle is not valid |
| `SocketHandles.SocketHandle.ToBool` | src/net/src/SocketHandle.cpp:32-34 | `operator bool` is true exactly when a value is owned, that is exactly when closing would issue calls |
| `SocketHandles.SocketHandle.IsValidHandle` | src/net/src/SocketHandle.cpp:36-38 | `is_valid_handle` (defined through `operator bool`) is true exactly when the value is not `kInvalid`, that is exactly when closing would issue calls |
| `SocketHandles.SocketHandle.Equal` | src/net/src/SocketHandle.cpp:40-42 | `==` takes only another `SocketHandle` and holds exactly when both hold the same native value; a handle equals itself |
| `SocketHandles.SocketHandle.NotEqual` | src/net/src/SocketHandle.cpp:44-46 | `!=` is the negation of `==` |
| `SocketHandles.SocketHandle.ReleaseHandle` | src/net/src/SocketHandle.cpp:48-50 | returns the previous value, leaves the handle `kInvalid`, and makes no call at all (it cannot touch `os`) |
| `SocketHandles.SocketHandle.ResetHandle` | src/net/src/SocketHandle.cpp:52-55 | closes the current value once if valid (graceful protocol), then holds the new value, `kInvalid` by default |
| `SocketHandles.SocketHandle.CloseHandle` | src/net/src/SocketHandle.cpp:57-95 | a valid handle makes SO_LINGER(on, 1 s), shutdown(both), non-blocking, close, in that order, and is `kInvalid` afterwards whatever close returned; an invalid handle makes no call |
| `SocketHandles.SocketHandle.BindHandle` | src/net/src/SocketHandle.cpp:97-102 | an invalid handle yields the "bind_handle() failed: Invalid socket " error without calling `bind`; a valid one calls `bind` once and returns its result |
| `SocketHandles.SocketHandle.ListenHandle` | src/net/src/SocketHandle.cpp:104-109 | an invalid handle yields the "listen_handle() failed: Invalid socket " error without calling `listen`; a valid one calls `listen` once with the backlog (default 10) and returns its result |
| `SocketHandles.SocketHandle.AcceptHandle` | src/net/src/SocketHandle.cpp:111-117 | an invalid handle returns a new invalid handle without calling `accept`; a valid one calls `accept` once and returns a new handle owning its result |
| `SocketHandles.SocketHandle.CreateSocketHandle` | src/net/src/SocketHandle.cpp:119-125 | calls `socket()` once; a `kInvalid` result yields the "socket() failed" error, any other result a new handle owning it |
| `SocketHandles.CloseTwiceThenDestroy` | src/net/src/SocketHandle.cpp:24-26 | closing twice and then destroying makes the close protocol once, so the value is closed exactly once if it was valid |
| `SocketFDs.SocketFD.constructor` | src/net/include/SocketFD.hpp:42-46 | a default-constructed `SocketFD` holds `kInvalid` and is not valid |
| `SocketFDs.SocketFD.FromNative` | src/net/src/SocketFD.cpp:13 | construction from a native fd owns exactly that value |
| `SocketFDs.SocketFD.Move` | src/net/include/SocketFD.hpp:51 | move construction transfers the value and resets the source to `kInvalid` |
| `SocketFDs.SocketFD.MoveAssign` | src/net/src/SocketFD.cpp:15-21 | self-assignment is a no-op; otherwise the destination's own value is closed (plain close), the source's value is taken and the source becomes `kInvalid` |
| `SocketFDs.SocketFD.Destroy` | src/net/src/SocketFD.cpp:23-25 | the destructor runs the same close as `close_handle` |
| `SocketFDs.SocketFD.NativeHandle` | src/net/src/SocketFD.cpp:27-29 | the accessor yields `kInvalid` exactly when the handle is not valid |
| `SocketFDs.SocketFD.ToBool` | src/net/src/SocketFD.cpp:31-33 | `operator bool` is true exactly when a value is owned, that is exactly when closing would issue its `close` |
| `SocketFDs.SocketFD.IsValidHandle` | src/net/src/SocketFD.cpp:35-37 | valid exactly when the value is not `kInvalid`, which is exactly when closing would issue a call; defined through `operator bool` |
| `SocketFDs.SocketFD.Equal` | src/net/src/SocketFD.cpp:39-41 | `==` takes only another `SocketFD` and compares the native values |
| `SocketFDs.SocketFD.NotEqual` | src/net/src/SocketFD.cpp:43-45 | `!=` is the negation of `==` |
| `SocketFDs.SocketFD.ReleaseHandle` | src/net/src/SocketFD.cpp:47-49 | returns the old value, leaves the handle `kInvalid`, and makes no call |
| `SocketFDs.SocketFD.ResetHandle` | src/net/src/SocketFD.cpp:51-54 | closes the current value once if valid (one `close`), then holds the new value, `kInvalid` by default |
| `SocketFDs.SocketFD.CloseHandle` | src/net/src/SocketFD.cpp:56-65 | a valid handle makes exactly one call, `close`, with no linger, shutdown or non-blocking step, and becomes `kInvalid`; an invalid handle makes no call |
| `SocketFDs.SocketFD.BindHandle` | src/net/src/SocketFD.cpp:67-72 | an invalid handle returns -1 without calling `bind`; a valid one calls `bind` once and returns its result |
| `SocketFDs.SocketFD.ListenHandle` | src/net/src/SocketFD.cpp:74-79 | an invalid handle returns -1 without calling `listen`; a valid one calls `listen` once with the backlog (default 10) |
| `SocketFDs.SocketFD.AcceptHandle` | src/net/src/SocketFD.cpp:81-87 | an invalid handle returns an invalid `SocketFD` without calling `accept`; a valid one returns a new `SocketFD` owning what `accept` returned |
| `SocketFDs.SocketFD.CreateSocketFD` | src/net/src/SocketFD.cpp:89-95 | calls `socket()` once; a `kInvalid` result yields the "socket() failed" error, any other result a new `SocketFD` owning it |
| `SocketFDs.CloseTwiceThenDestroy` | src/net/src/SocketFD.cpp:23-25 | closing twice and then destroying issues exactly one `close` of a valid value |
| `Native.CloseSyscallsCloseOnce` | src/net/src/SocketHandle.cpp:57-95 | under either policy, closing a handle issues one `close` of its own value when it is valid and none otherwise, and closes no other descriptor |
| `Native.ValidIffCloseIssued` | src/net/src/SocketFD.cpp:56-65 | a value is valid exactly when closing it issues its `close`; closing `kInvalid` issues nothing |
| `Native.CloseComesLast` | src/net/src/SocketHandle.cpp:80-93 | in the close protocol every call is made on the closed handle and the `close` is the last call, so nothing is done to the descriptor after it is closed |
| `Native.PoliciesCloseAlike` | src/net/src/SocketFD.cpp:56-65 | the plain and graceful policies close the same values the same number of times; the graceful one adds three preparatory calls per close |
| `Ownership.StepUnique` | src/net/include/SocketHandle.hpp:55-57 | without a copy operation, no construction, move, release, reset, close, destruction or accept makes two live handles hold one valid value |
| `Ownership.StepBalance` | src/net/include/SocketHandle.hpp:51-53 | per operation and valid value, the closes issued plus "held afterwards" plus "handed back now" equal "held before" plus "adopted now": no operation loses a value or closes it twice |
| `Ownership.StepPreservesInv` | src/net/include/SocketHandle.hpp:51-60 | every operation of either class keeps unique ownership and the exact accounting of each adoption by one close, one live holder or one release |
| `Ownership.RunPreservesInv` | src/net/include/SocketFD.hpp:50-59 | the invariant holds after any feasible sequence of operations |
| `Ownership.ClosedAtMostAsOftenAsAdopted` | src/net/include/SocketHandle.hpp:51-60 | from no handles, any feasible program leaves no two live handles holding one valid value and closes no value more often than it was adopted |
| `Ownership.AdoptedOnceClosedAtMostOnce` | src/net/include/SocketFD.hpp:50-59 | a raw value adopted once is closed at most once, over any sequence of moves, resets and destructions |
| `Ownership.RunWithoutReleaseKeepsReleased` | src/net/src/SocketHandle.cpp:48-50 | only `release_handle` hands a value back to the caller: a program without releases leaves the released values unchanged |
| `Ownership.TeardownExists` | src/net/src/SocketFD.cpp:23-25 | every live handle can be destroyed: destroying them one by one is allowed and leaves no live handle |
| `Ownership.ClosedOncePerAdoption` | src/net/src/SocketHandle.cpp:24-26 | once no handle is live, every adoption of a valid value was matched by exactly one close or one release, and by exactly one close when nothing was released |
| `Ownership.NoLeak` | src/net/include/SocketHandle.hpp:60 | after any program without releases, destroying the live handles leaves none and closes every valid value exactly as often as it was adopted |
| `Ownership.IssuedTouchesHeld` | src/net/src/SocketHandle.cpp:97-117 | every call an operation makes is on a valid value a live handle holds; the guarded wrappers never reach the OS with `kInvalid` |
| `Ownership.NoUseAfterClose` | src/net/src/SocketHandle.cpp:93 | once a value has been closed as often as adopted, the next operation makes no call on it |
| `Ownership.RunNoUseAfterClose` | src/net/src/SocketFD.cpp:63 | once a value has been closed as often as adopted, no later call of a program that does not adopt it again touches it |
| `Ownership.MovedFromIsInvalid` | src/net/src/SocketHandle.cpp:16-22 | after a move (construction or assignment to another handle) the source is `kInvalid` and the destination holds the old source value; release leaves the handle invalid and makes no call |
| `Ownership.CloseIsIdempotent` | src/net/src/SocketHandle.cpp:57-58 | closing a second time changes nothing, and destroying after closing makes no call |
| `Ownership.DefaultResetIsClose` | src/net/include/SocketHandle.hpp:99 | `reset_handle()` with its default argument behaves exactly as `close_handle()` and leaves the handle invalid |
| `Ownership.EqualOnlyWhenBothInvalid` | src/net/src/SocketHandle.cpp:40-46 | between two distinct live handles, `==` holds exactly when both are invalid |
| `Ownership.CopyWouldDoubleClose` | src/net/include/SocketFD.hpp:54-56 | a copy of a valid handle would give one value two owners, and destroying both would close it twice, which is why copying is deleted |
| `Ownership.ResetToOwnValueDoubleCloses` | src/net/include/SocketHandle.hpp:48-49 | resetting a handle to the value it already holds is not allowed; it would close the value, keep it, and close it again on destruction |

## Left out

- The Windows branch (`SOCKET`, `INVALID_SOCKET`, `closesocket`, `ioctlsocket`, `SD_BOTH`, `WSAGetLastError`). Only the Linux branch is modelled.
- The address arguments of `bind_handle` and `accept_handle` and the arguments of `socket()`. They are passed unchanged to the operating system, so the model leaves them out.
- The two `fcntl` calls that set `O_NONBLOCK` (read the flags, then write them back with the flag added). They are recorded as one `NonBlock` event.
- The `errno` value in the thrown `std::system_error`. The error keeps only its message. On the invalid-handle paths that value is stale anyway.
- The warning written to the error stream when `close` returns -1. The model only shows that the handle becomes `kInvalid` either way.
- The effect of the socket calls on the network, and the values they return. These are foreign calls, and their results are left open.
- The ordering operators `<`, `<=`, `>`, `>=` of `SocketHandle`. They are declared but never defined, so no behaviour exists to model.
- The deleted members: copy construction, copy assignment, the conversion template, and comparisons with a raw native value. They have no Dafny counterpart. The classes define no such member, `Equal` accepts only a handle of the same class, and `Ownership.Op` has no copy.
- `Socket.hpp` and `Socket.cpp` are not part of this model. They hold I/O plumbing whose send, receive and transfer members have no bodies.
- Blocking, timeouts and use from several threads. The model is sequential.
- `Ownership.Enabled`: the world allows an adoption only of a value no live handle holds. The classes cannot check this; it is the caller's ownership duty.
