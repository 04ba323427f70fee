/** `SocketFD`: the move-only owner of one native socket that closes it plainly
    (a single close) and answers -1 when asked to bind or listen on an invalid
    handle. Only the factory throws; a thrown `std::system_error` is an `Err`
    result here. */
module SocketFDs {
  import opened Native

  class SocketFD {
    /** The owned native value, `kInvalid` when nothing is owned. */
    var handle: int

    /** Default construction: the handle owns nothing. */
    constructor ()
      ensures handle == kInvalid
      ensures !IsValidHandle()
    {
      handle := kInvalid;
    }

    /** Construction from a native value takes ownership of exactly that value. */
    constructor FromNative(fd: int)
      ensures handle == fd
    {
      handle := fd;
    }

    /** Move construction: the new handle takes the source's value and the source
        is left holding `kInvalid`, so the value keeps a single owner. */
    constructor Move(other: SocketFD)
      modifies other
      ensures handle == old(other.handle)
      ensures other.handle == kInvalid && !other.IsValidHandle()
    {
      handle := other.handle;
      other.handle := kInvalid;
    }

    /** Move assignment. On itself it does nothing; otherwise it first closes what
        this handle owns, then takes the source's value and leaves the source
        invalid. */
    method MoveAssign(other: SocketFD, os: Os)
      modifies this, other, os
      ensures other == this ==> handle == old(handle) && os.log == old(os.log)
      ensures other != this ==>
        && handle == old(other.handle)
        && other.handle == kInvalid
        && os.log == old(os.log) + CloseSyscalls(Plain, old(handle))
    {
      if other != this {
        CloseHandle(os);
        handle := other.handle;
        other.handle := kInvalid;
      }
    }

    /** The destructor: the same routine as `close_handle`. */
    method Destroy(os: Os)
      modifies this, os
      ensures handle == kInvalid
      ensures os.log == old(os.log) + CloseSyscalls(Plain, old(handle))
    {
      CloseHandle(os);
    }

    /** The only way to read the native value. */
    function NativeHandle(): (r: int)
      reads this
      ensures r == kInvalid <==> !IsValidHandle()
    {
      handle
    }

    /** The explicit `bool` conversion: true exactly when a value is owned, that
        is, when closing would issue calls. */
    predicate ToBool()
      reads this
      ensures ToBool() <==> CloseSyscalls(Plain, handle) != []
    {
      handle != kInvalid
    }

    /** `is_valid_handle`, defined through the `bool` conversion: true exactly when
        a value is owned, that is, when closing would issue a `close`. */
    predicate IsValidHandle()
      reads this
      ensures IsValidHandle() <==> handle != kInvalid
      ensures IsValidHandle() <==> CloseSyscalls(Plain, handle) != []
    {
      ToBool()
    }

    /** `==` against another `SocketFD` (there is no comparison with a raw
        native value): the two own the same value, or both own nothing. */
    predicate Equal(other: SocketFD)
      reads this, other
      ensures Equal(other) <==> NativeHandle() == other.NativeHandle()
      ensures this == other ==> Equal(other)
    {
      handle == other.handle
    }

    /** `!=`, the negation of `==`. */
    predicate NotEqual(other: SocketFD)
      reads this, other
      ensures NotEqual(other) <==> !Equal(other)
    {
      !Equal(other)
    }

    /** Gives up ownership without closing: returns the value and becomes invalid. */
    method ReleaseHandle() returns (r: int)
      modifies this
      ensures r == old(handle)
      ensures handle == kInvalid
    {
      r := handle;
      handle := kInvalid;
    }

    /** Closes what is owned, then owns `newHandle` (by default nothing). */
    method ResetHandle(os: Os, newHandle: int := kInvalid)
      modifies this, os
      ensures handle == newHandle
      ensures os.log == old(os.log) + CloseSyscalls(Plain, old(handle))
    {
      CloseHandle(os);
      handle := newHandle;
    }

    /** The plain close: on a valid handle a single `close`, whose result is
        ignored, after which the handle is invalid; on an invalid handle, nothing. */
    method CloseHandle(os: Os)
      modifies this, os
      ensures handle == kInvalid
      ensures os.log == old(os.log) + CloseSyscalls(Plain, old(handle))
    {
      if IsValidHandle() {
        var _ := os.SysClose(handle);
        handle := kInvalid;
      }
    }

    /** `bind` on the owned socket, returning what `bind` returned; on an invalid
        handle -1, and `bind` is not called. */
    method BindHandle(os: Os) returns (r: int)
      modifies os
      ensures !IsValidHandle() ==> r == -1 && os.log == old(os.log)
      ensures IsValidHandle() ==> os.log == old(os.log) + [Bind(handle, r)]
    {
      if !IsValidHandle() {
        return -1;
      }
      r := os.SysBind(handle);
    }

    /** `listen` on the owned socket with `backlog` (by default 10), returning what
        `listen` returned; on an invalid handle -1, and `listen` is not called. */
    method ListenHandle(os: Os, backlog: int := kDefaultBacklog) returns (r: int)
      modifies os
      ensures !IsValidHandle() ==> r == -1 && os.log == old(os.log)
      ensures IsValidHandle() ==> os.log == old(os.log) + [Listen(handle, backlog, r)]
    {
      if !IsValidHandle() {
        return -1;
      }
      r := os.SysListen(handle, backlog);
    }

    /** `accept` on the owned socket: a new handle owning what `accept` returned
        (invalid when `accept` failed); on an invalid handle an invalid handle, and
        `accept` is not called. */
    method AcceptHandle(os: Os) returns (r: SocketFD)
      modifies os
      ensures fresh(r)
      ensures !IsValidHandle() ==> r.handle == kInvalid && os.log == old(os.log)
      ensures IsValidHandle() ==> os.log == old(os.log) + [Accept(handle, r.handle)]
    {
      if !IsValidHandle() {
        r := new SocketFD.FromNative(kInvalid);
        return;
      }
      var fd := os.SysAccept(handle);
      r := new SocketFD.FromNative(fd);
    }

    /** The factory: calls `socket()` once, throws when it returns `kInvalid`, and
        otherwise returns a new handle owning the result. */
    static method CreateSocketFD(os: Os) returns (r: Result<SocketFD>)
      modifies os
      ensures |os.log| == |old(os.log)| + 1 && os.log[..|old(os.log)|] == old(os.log)
      ensures os.log[|old(os.log)|].Socket?
      ensures os.log[|old(os.log)|].result == kInvalid ==> r == Err(SystemError("socket() failed"))
      ensures os.log[|old(os.log)|].result != kInvalid ==>
        r.Ok? && fresh(r.value) && r.value.handle == os.log[|old(os.log)|].result
    {
      var sock := os.SysSocket();
      if sock == kInvalid {
        return Err(SystemError("socket() failed"));
      }
      var h := new SocketFD.FromNative(sock);
      return Ok(h);
    }
  }

  /** Closing twice and then destroying issues the close protocol once. */
  method CloseTwiceThenDestroy(h: SocketFD, os: Os)
    modifies h, os
    ensures h.handle == kInvalid
    ensures os.log == old(os.log) + CloseSyscalls(Plain, old(h.handle))
    ensures CloseCount(os.log, old(h.handle)) ==
      CloseCount(old(os.log), old(h.handle)) + (if old(h.handle) != kInvalid then 1 else 0)
  {
    ghost var v := h.handle;
    h.CloseHandle(os);
    h.CloseHandle(os);
    h.Destroy(os);
    CloseCountAppend(old(os.log), CloseSyscalls(Plain, v), v);
    CloseSyscallsCloseOnce(Plain, v, v);
  }
}
