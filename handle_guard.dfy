/**
 * HandleGuard (main.cpp), the move-only owner of one Win32 handle, and the
 * part of the kernel's handle table it touches. CloseHandle may only be
 * given a handle that is open, so every proof below that a guard closes
 * something is also a proof that it never closes a handle twice.
 */
module Handles {

  /** A Win32 HANDLE value. */
  type Handle = int

  /** INVALID_HANDLE_VALUE, the "owns nothing" value. */
  const InvalidHandleValue: Handle := -1

  /** The handles the process holds open and the order in which it closed them. */
  class Kernel {
    var open: set<Handle>
    var closed: seq<Handle>

    constructor ()
      ensures open == {} && closed == []
    {
      open := {};
      closed := [];
    }

    /** A successful CreateFileW: the kernel hands out handle `h`. */
    method Open(h: Handle)
      requires h != InvalidHandleValue && h !in open
      modifies this
      ensures open == old(open) + {h} && closed == old(closed)
    {
      open := open + {h};
    }

    /** CloseHandle on an open handle. */
    method CloseHandle(h: Handle)
      requires h in open
      modifies this
      ensures open == old(open) - {h} && closed == old(closed) + [h]
    {
      open := open - {h};
      closed := closed + [h];
    }
  }

  class HandleGuard {
    var handle: Handle
    const kernel: Kernel

    /** The guard owns an open handle, or nothing. */
    predicate Owning()
      reads this, kernel
    {
      handle != InvalidHandleValue ==> handle in kernel.open
    }

    /** `valid()`: the guard holds a handle. */
    predicate IsValid()
      reads this
    {
      handle != InvalidHandleValue
    }

    /** `explicit HandleGuard(HANDLE h = INVALID_HANDLE_VALUE)`: takes ownership of `h`. */
    constructor (kernel: Kernel, h: Handle)
      ensures this.kernel == kernel && handle == h
    {
      this.kernel := kernel;
      handle := h;
    }

    /** The move constructor: the new guard takes the handle, the source is left invalid. */
    constructor MoveFrom(other: HandleGuard)
      modifies other
      ensures kernel == other.kernel && handle == old(other.handle)
      ensures other.handle == InvalidHandleValue
    {
      kernel := other.kernel;
      handle := other.handle;
      new;
      other.handle := InvalidHandleValue;
    }

    /**
     * Move assignment. Assigning a guard to itself changes nothing.
     * Otherwise the handle this guard held, if any, is closed first, this
     * guard takes over the other's handle and the other is left invalid.
     * Two owning guards that own different handles still do afterwards.
     */
    method MoveAssign(other: HandleGuard)
      requires other.kernel == kernel
      requires Owning() && other.Owning()
      requires this != other && IsValid() && other.IsValid() ==> handle != other.handle
      modifies this, other, kernel
      ensures this == other ==> unchanged(this) && unchanged(kernel)
      ensures this != other ==>
                handle == old(other.handle) && other.handle == InvalidHandleValue &&
                (old(handle) != InvalidHandleValue ==>
                   kernel.open == old(kernel.open) - {old(handle)} &&
                   kernel.closed == old(kernel.closed) + [old(handle)]) &&
                (old(handle) == InvalidHandleValue ==> unchanged(kernel))
      ensures Owning() && other.Owning()
    {
      if this != other {
        if handle != InvalidHandleValue {
          kernel.CloseHandle(handle);
        }
        handle := other.handle;
        other.handle := InvalidHandleValue;
      }
    }

    /** The destructor: closes the handle the guard owns, if any. */
    method Destroy()
      requires Owning()
      modifies kernel
      ensures handle != InvalidHandleValue ==>
                kernel.open == old(kernel.open) - {handle} && kernel.closed == old(kernel.closed) + [handle]
      ensures handle == InvalidHandleValue ==> unchanged(kernel)
    {
      if handle != InvalidHandleValue {
        kernel.CloseHandle(handle);
      }
    }
  }

  /**
   * Two guards, each given a freshly opened handle, then one moved into the
   * other and both destroyed: each handle is closed exactly once, the
   * overwritten one at the assignment and the moved one at destruction.
   * That no handle is ever closed twice, in this or any other sequence of
   * guard operations, follows from `CloseHandle`'s `requires h in open`:
   * every close the guards perform must verify against it.
   */
  method MoveThenDestroy(kernel: Kernel, h1: Handle, h2: Handle)
    requires h1 != InvalidHandleValue && h2 != InvalidHandleValue && h1 != h2
    requires h1 !in kernel.open && h2 !in kernel.open
    modifies kernel
    ensures kernel.closed == old(kernel.closed) + [h1, h2]
    ensures kernel.open == old(kernel.open)
  {
    kernel.Open(h1);
    var a := new HandleGuard(kernel, h1);
    kernel.Open(h2);
    var b := new HandleGuard(kernel, h2);
    a.MoveAssign(b);
    b.Destroy();
    a.Destroy();
  }
}
