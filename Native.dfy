/** The native side shared by both handle classes: the Linux socket type (`int`)
    with its sentinel, the foreign socket calls as a log of events, the two close
    policies, and the error values that the source throws. */
module Native {

  /** The sentinel of the Linux native socket type `int`. */
  const kInvalid: int := -1

  /** The default backlog of `listen_handle`. */
  const kDefaultBacklog: int := 10

  /** How `shutdown` is asked to stop traffic (`SHUT_RD`, `SHUT_WR`, `SHUT_RDWR`). */
  datatype ShutdownHow = Read | Write | Both

  /** One call into the operating system, with the descriptor it was made on and,
      where the caller uses it, the value the call returned. */
  datatype Event =
    | Socket(result: int)
    | Linger(h: int, onoff: int, seconds: int)
    | Shutdown(h: int, how: ShutdownHow)
    | NonBlock(h: int)
    | Close(h: int)
    | Bind(h: int, result: int)
    | Listen(h: int, backlog: int, result: int)
    | Accept(h: int, result: int)

  /** The call `e` was made on descriptor `v` (`socket()` is made on none). */
  predicate Touches(e: Event, v: int) {
    !e.Socket? && e.h == v
  }

  /** `SocketHandle` closes gracefully; `SocketFD` closes plainly. */
  datatype ClosePolicy = Graceful | Plain

  /** The calls `close_handle` makes on a handle holding `h`: none when `h` is the
      sentinel; otherwise, under the graceful policy, SO_LINGER on for 1 second,
      shutdown of both directions, non-blocking mode and then close; under the
      plain policy the close alone. */
  function CloseSyscalls(p: ClosePolicy, h: int): (r: seq<Event>) {
    if h == kInvalid then []
    else match p
      case Graceful => [Linger(h, 1, 1), Shutdown(h, Both), NonBlock(h), Close(h)]
      case Plain => [Close(h)]
  }

  /** The number of `close(v)` calls in `log`. */
  function CloseCount(log: seq<Event>, v: int): (r: nat) {
    if log == [] then 0
    else (if log[0] == Close(v) then 1 else 0) + CloseCount(log[1..], v)
  }

  lemma {:induction false} CloseCountAppend(a: seq<Event>, b: seq<Event>, v: int)
    ensures CloseCount(a + b, v) == CloseCount(a, v) + CloseCount(b, v)
  {
    if a == [] {
      assert a + b == b;
    } else {
      assert (a + b)[1..] == a[1..] + b;
      CloseCountAppend(a[1..], b, v);
    }
  }

  /** Closing issues one `close` of the held value when it is valid and none
      otherwise; no other descriptor is closed. */
  lemma CloseSyscallsCloseOnce(p: ClosePolicy, h: int, v: int)
    ensures CloseCount(CloseSyscalls(p, h), v) == if h != kInvalid && v == h then 1 else 0
  {
    var s := CloseSyscalls(p, h);
    if h != kInvalid {
      match p
      case Graceful =>
        assert s[1..] == [Shutdown(h, Both), NonBlock(h), Close(h)];
        assert s[1..][1..] == [NonBlock(h), Close(h)];
        assert s[1..][1..][1..] == [Close(h)];
        assert s[1..][1..][1..][1..] == [];
        assert CloseCount(s[1..][1..][1..], v) == if v == h then 1 else 0;
        assert CloseCount(s[1..][1..], v) == CloseCount(s[1..][1..][1..], v);
        assert CloseCount(s[1..], v) == CloseCount(s[1..][1..], v);
      case Plain =>
        assert s[1..] == [];
    }
  }

  /** A handle is valid exactly when closing it issues a `close` of its value. */
  lemma ValidIffCloseIssued(p: ClosePolicy, h: int)
    ensures h != kInvalid <==> CloseCount(CloseSyscalls(p, h), h) == 1
    ensures h == kInvalid <==> CloseSyscalls(p, h) == []
  {
    CloseSyscallsCloseOnce(p, h, h);
  }

  /** Every call of the close protocol is made on the closed handle itself, and the
      `close` comes last: nothing is done to the descriptor once it is closed. */
  lemma CloseComesLast(p: ClosePolicy, h: int)
    requires h != kInvalid
    ensures var s := CloseSyscalls(p, h);
      && |s| > 0
      && s[|s| - 1] == Close(h)
      && (forall i :: 0 <= i < |s| ==> Touches(s[i], h))
      && (forall i :: 0 <= i < |s| - 1 ==> !s[i].Close?)
  {
  }

  /** The two policies close the same descriptors the same number of times; they
      differ only in the preparatory calls. */
  lemma PoliciesCloseAlike(h: int, v: int)
    ensures CloseCount(CloseSyscalls(Graceful, h), v) == CloseCount(CloseSyscalls(Plain, h), v)
    ensures |CloseSyscalls(Graceful, h)| == 4 * |CloseSyscalls(Plain, h)|
  {
    CloseSyscallsCloseOnce(Graceful, h, v);
    CloseSyscallsCloseOnce(Plain, h, v);
  }

  /** What `throw_last_error` throws, less the `errno` value it reads. */
  datatype Error = SystemError(operation: string)

  /** A value, or the error the source throws instead of returning it. */
  datatype Result<T> = Ok(value: T) | Err(error: Error)

  /** The operating system as far as the handles see it: the calls they make, in
      order. What each call returns is not determined by the model. */
  class Os {
    var log: seq<Event>

    constructor ()
      ensures log == []
    {
      log := [];
    }

    method SysSocket() returns (fd: int)
      modifies this
      ensures fd >= kInvalid
      ensures log == old(log) + [Socket(fd)]
    {
      fd :| fd >= kInvalid;
      log := log + [Socket(fd)];
    }

    method SysSetLinger(h: int, onoff: int, seconds: int)
      modifies this
      ensures log == old(log) + [Linger(h, onoff, seconds)]
    {
      log := log + [Linger(h, onoff, seconds)];
    }

    method SysShutdown(h: int, how: ShutdownHow)
      modifies this
      ensures log == old(log) + [Shutdown(h, how)]
    {
      log := log + [Shutdown(h, how)];
    }

    method SysSetNonBlocking(h: int)
      modifies this
      ensures log == old(log) + [NonBlock(h)]
    {
      log := log + [NonBlock(h)];
    }

    method SysClose(h: int) returns (result: int)
      modifies this
      ensures result == 0 || result == -1
      ensures log == old(log) + [Close(h)]
    {
      result :| result == 0 || result == -1;
      log := log + [Close(h)];
    }

    method SysBind(h: int) returns (result: int)
      modifies this
      ensures result == 0 || result == -1
      ensures log == old(log) + [Bind(h, result)]
    {
      result :| result == 0 || result == -1;
      log := log + [Bind(h, result)];
    }

    method SysListen(h: int, backlog: int) returns (result: int)
      modifies this
      ensures result == 0 || result == -1
      ensures log == old(log) + [Listen(h, backlog, result)]
    {
      result :| result == 0 || result == -1;
      log := log + [Listen(h, backlog, result)];
    }

    method SysAccept(h: int) returns (fd: int)
      modifies this
      ensures fd >= kInvalid
      ensures log == old(log) + [Accept(h, fd)]
    {
      fd :| fd >= kInvalid;
      log := log + [Accept(h, fd)];
    }
  }
}
