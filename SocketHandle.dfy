/** `SocketHandle`: the move-only owner of one native socket that closes it
    gracefully (linger, shutdown, non-blocking, close) and throws when asked to
    bind or listen on an invalid handle. A thrown `std::system_error` is an `Err`
    result here. */
module SocketHandles {
  import opened Native

  class SocketHandle {
    /** The owned native value, `kInvalid` when nothing is owned. */
    var handle: int

    /** Default construction: the handle owns nothing. */
    constructor ()
      ensures handle == kInvalid
      ensures !IsValidHandle()
    {
      handle := kInvalid;
    }

    /** Construction from a native value takes ownership of exactly that value. */
    constructor FromNative(fd: int)
      ensures handle == fd
    {
      handle := fd;
    }

    /** Move construction: the new handle takes the source's value and the source
        is left holding `kInvalid`, so the value keeps a single owner. */
    constructor Move(other: SocketHandle)
      modifies other
      ensures handle == old(other.handle)
      ensures other.handle == kInvalid && !other.IsValidHandle()
    {
      handle := other.handle;
      other.handle := kInvalid;
    }

    /** Move assignment. On itself it does nothing; otherwise it first closes what
        this handle owns, then takes the source's value and leaves the source
        invalid. */
    method MoveAssign(other: SocketHandle, os: Os)
      modifies this, other, os
      ensures other == this ==> handle == old(handle) && os.log == old(os.log)
      ensures other != this ==>
        && handle == old(other.handle)
        && other.handle == kInvalid
        && os.log == old(os.log) + CloseSyscalls(Graceful, old(handle))
    {
      if other != this {
        CloseHandle(os);
        handle := other.handle;
        other.handle := kInvalid;
      }
    }

    /** The destructor: the same routine as `close_handle`. */
    method Destroy(os: Os)
      modifies this, os
      ensures handle == kInvalid
      ensures os.log == old(os.log) + CloseSyscalls(Graceful, old(handle))
    {
      CloseHandle(os);
    }

    /** The only way to read the native value. */
    function NativeHandle(): (r: int)
      reads this
      ensures r == kInvalid <==> !IsValidHandle()
    {
      handle
    }

    /** The explicit `bool` conversion: true exactly when a value is owned, that
        is, when closing would issue calls. */
    predicate ToBool()
      reads this
      ensures ToBool() <==> CloseSyscalls(Graceful, handle) != []
    {
      handle != kInvalid
    }

    /** `is_valid_handle`, defined through the `bool` conversion: true exactly when
        a value is owned, that is, when closing would issue a `close`. */
    predicate IsValidHandle()
      reads this
      ensures IsValidHandle() <==> handle != kInvalid
      ensures IsValidHandle() <==> CloseSyscalls(Graceful, handle) != []
    {
      ToBool()
    }

    /** `==` against another `SocketHandle` (there is no comparison with a raw
        native value): the two own the same value, or both own nothing. */
    predicate Equal(other: SocketHandle)
      reads this, other
      ensures Equal(other) <==> NativeHandle() == other.NativeHandle()
      ensures this == other ==> Equal(other)
    {
      handle == other.handle
    }

    /** `!=`, the negation of `==`. */
    predicate NotEqual(other: SocketHandle)
      reads this, other
      ensures NotEqual(other) <==> !Equal(other)
    {
      !Equal(other)
    }

    /** Gives up ownership without closing: returns the value and becomes invalid. */
    method ReleaseHandle() returns (r: int)
      modifies this
      ensures r == old(handle)
      ensures handle == kInvalid
    {
      r := handle;
      handle := kInvalid;
    }

    /** Closes what is owned, then owns `newHandle` (by default nothing). */
    method ResetHandle(os: Os, newHandle: int := kInvalid)
      modifies this, os
      ensures handle == newHandle
      ensures os.log == old(os.log) + CloseSyscalls(Graceful, old(handle))
    {
      CloseHandle(os);
      handle := newHandle;
    }

    /** The graceful close: on a valid handle, SO_LINGER on for 1 second, shutdown of
        both directions, non-blocking mode and close, after which the handle is
        invalid whatever `close` returned; on an invalid handle, nothing. */
    method CloseHandle(os: Os)
      modifies this, os
      ensures handle == kInvalid
      ensures os.log == old(os.log) + CloseSyscalls(Graceful, old(handle))
    {
      if IsValidHandle() {
        os.SysSetLinger(handle, 1, 1);
        os.SysShutdown(handle, Both);
        os.SysSetNonBlocking(handle);
        var result := os.SysClose(handle);
        // A result of -1 only produces a warning on the error stream.
        handle := kInvalid;
      }
    }

    /** `bind` on the owned socket; on an invalid handle the error is thrown and
        `bind` is not called. */
    method BindHandle(os: Os) returns (r: Result<int>)
      modifies os
      ensures !IsValidHandle() ==>
        r == Err(SystemError("bind_handle() failed: Invalid socket ")) && os.log == old(os.log)
      ensures IsValidHandle() ==> r.Ok? && os.log == old(os.log) + [Bind(handle, r.value)]
    {
      if !IsValidHandle() {
        return Err(SystemError("bind_handle() failed: Invalid socket "));
      }
      var result := os.SysBind(handle);
      return Ok(result);
    }

    /** `listen` on the owned socket with `backlog` (by default 10); on an invalid
        handle the error is thrown and `listen` is not called. */
    method ListenHandle(os: Os, backlog: int := kDefaultBacklog) returns (r: Result<int>)
      modifies os
      ensures !IsValidHandle() ==>
        r == Err(SystemError("listen_handle() failed: Invalid socket ")) && os.log == old(os.log)
      ensures IsValidHandle() ==> r.Ok? && os.log == old(os.log) + [Listen(handle, backlog, r.value)]
    {
      if !IsValidHandle() {
        return Err(SystemError("listen_handle() failed: Invalid socket "));
      }
      var result := os.SysListen(handle, backlog);
      return Ok(result);
    }

    /** `accept` on the owned socket: a new handle owning what `accept` returned
        (invalid when `accept` failed); on an invalid handle an invalid handle, and
        `accept` is not called. */
    method AcceptHandle(os: Os) returns (r: SocketHandle)
      modifies os
      ensures fresh(r)
      ensures !IsValidHandle() ==> r.handle == kInvalid && os.log == old(os.log)
      ensures IsValidHandle() ==> os.log == old(os.log) + [Accept(handle, r.handle)]
    {
      if !IsValidHandle() {
        r := new SocketHandle.FromNative(kInvalid);
        return;
      }
      var fd := os.SysAccept(handle);
      r := new SocketHandle.FromNative(fd);
    }

    /** The factory: calls `socket()` once, throws when it returns `kInvalid`, and
        otherwise returns a new handle owning the result. */
    static method CreateSocketHandle(os: Os) returns (r: Result<SocketHandle>)
      modifies os
      ensures |os.log| == |old(os.log)| + 1 && os.log[..|old(os.log)|] == old(os.log)
      ensures os.log[|old(os.log)|].Socket?
      ensures os.log[|old(os.log)|].result == kInvalid ==> r == Err(SystemError("socket() failed"))
      ensures os.log[|old(os.log)|].result != kInvalid ==>
        r.Ok? && fresh(r.value) && r.value.handle == os.log[|old(os.log)|].result
    {
      var sock := os.SysSocket();
      if sock == kInvalid {
        return Err(SystemError("socket() failed"));
      }
      var h := new SocketHandle.FromNative(sock);
      return Ok(h);
    }
  }

  /** Closing twice and then destroying issues the close protocol once. */
  method CloseTwiceThenDestroy(h: SocketHandle, os: Os)
    modifies h, os
    ensures h.handle == kInvalid
    ensures os.log == old(os.log) + CloseSyscalls(Graceful, old(h.handle))
    ensures CloseCount(os.log, old(h.handle)) ==
      CloseCount(old(os.log), old(h.handle)) + (if old(h.handle) != kInvalid then 1 else 0)
  {
    ghost var v := h.handle;
    h.CloseHandle(os);
    h.CloseHandle(os);
    h.Destroy(os);
    CloseCountAppend(old(os.log), CloseSyscalls(Graceful, v), v);
    CloseSyscallsCloseOnce(Graceful, v, v);
  }
}
