/** `UniqueHandle<CloserT>`: a single-owner wrapper around a scalar handle.
    `CloserT()()` names the sentinel ("no handle") value and `CloserT()(h)`
    releases `h`; the wrapper calls the closer exactly when it discards a
    handle that is not the sentinel. */
module UniqueHandle {

  /** Handles are scalars (a pointer, an integer descriptor, ...). */
  type Handle = int

  /** The closer type. Its one observable effect, closing a handle, is
      recorded in `closed` in the order the calls happen. */
  class Closer {
    const sentinel: Handle
    var closed: seq<Handle>

    constructor (sentinel: Handle)
      ensures this.sentinel == sentinel && closed == []
    {
      this.sentinel := sentinel;
      closed := [];
    }

    /** `CloserT()(h)`. */
    method Close(h: Handle)
      modifies this
      ensures closed == old(closed) + [h]
    {
      closed := closed + [h];
    }
  }

  class UniqueHandle {
    const closer: Closer
    var obj: Handle

    /** The default constructor holds the sentinel. */
    constructor Empty(closer: Closer)
      ensures this.closer == closer && obj == closer.sentinel
      ensures !IsGood()
    {
      this.closer := closer;
      obj := closer.sentinel;
    }

    /** `explicit UniqueHandle(Handle)` adopts `h` without calling the closer. */
    constructor (closer: Closer, h: Handle)
      ensures this.closer == closer && obj == h
      ensures IsGood() <==> h != closer.sentinel
    {
      this.closer := closer;
      obj := h;
    }

    /** The move constructor takes `rhs`'s handle and leaves `rhs` holding
        the sentinel; nothing is closed. */
    constructor Move(rhs: UniqueHandle)
      modifies rhs
      ensures closer == rhs.closer && obj == old(rhs.obj)
      ensures rhs.obj == rhs.closer.sentinel
      ensures unchanged(rhs.closer)
    {
      closer := rhs.closer;
      obj := rhs.obj;
      rhs.obj := rhs.closer.sentinel;
    }

    /** `IsGood()` (and `operator bool`): the wrapper holds a real handle,
        which is what decides whether discarding it calls the closer. */
    function IsGood(): (r: bool)
      reads this
      ensures r <==> obj != closer.sentinel
    {
      obj != closer.sentinel
    }

    /** Gives the handle away: the result is the handle held before, the
        wrapper is left holding the sentinel, and no closer is called. */
    method Release() returns (h: Handle)
      modifies this
      ensures h == old(obj) && obj == closer.sentinel && !IsGood()
      ensures unchanged(closer)
    {
      h := obj;
      obj := closer.sentinel;
    }

    /** Stores `h`; the handle held before is closed exactly once, and only
        if it was not the sentinel. */
    method Reset(h: Handle)
      modifies this, closer
      ensures obj == h
      ensures closer.closed ==
        old(closer.closed) + (if old(IsGood()) then [old(obj)] else [])
    {
      var old_ := obj;
      obj := h;
      if old_ != closer.sentinel {
        closer.Close(old_);
      }
    }

    /** `Reset(UniqueHandle &&)`: a no-op on itself; otherwise takes `rhs`'s
        handle (leaving `rhs` at the sentinel) and closes the one held before. */
    method ResetFrom(rhs: UniqueHandle)
      requires rhs.closer == closer
      modifies this, rhs, closer
      ensures rhs == this ==> obj == old(obj) && closer.closed == old(closer.closed)
      ensures rhs != this ==>
        && obj == old(rhs.obj)
        && rhs.obj == closer.sentinel
        && closer.closed ==
             old(closer.closed) + (if old(IsGood()) then [old(obj)] else [])
    {
      if rhs != this {
        var h := rhs.Release();
        Reset(h);
      }
    }

    /** Exchanges the two handles; no closer is called. */
    method Swap(rhs: UniqueHandle)
      modifies this, rhs
      ensures obj == old(rhs.obj) && rhs.obj == old(obj)
      ensures unchanged(closer) && unchanged(rhs.closer)
    {
      obj, rhs.obj := rhs.obj, obj;
    }

    /** The destructor is `Reset()`: it closes the held handle iff it is not
        the sentinel. */
    method Destroy()
      modifies this, closer
      ensures obj == closer.sentinel
      ensures closer.closed ==
        old(closer.closed) + (if old(IsGood()) then [old(obj)] else [])
    {
      Reset(closer.sentinel);
    }
  }

  /** A client's view: two wrappers sharing one closer, a handle moved between
      them, swapped, released and finally both destroyed. Each handle that was
      adopted is closed exactly once, and the sentinel never is. */
  method HandleLifecycle(h1: Handle, h2: Handle) returns (closed: seq<Handle>)
    requires h1 != 0 && h2 != 0 && h1 != h2
    ensures closed == [h1, h2]
  {
    var c := new Closer(0);
    var a := new UniqueHandle(c, h1);
    var b := new UniqueHandle.Empty(c);
    b.ResetFrom(a);           // b takes h1, a holds the sentinel
    assert a.obj == 0 && b.obj == h1 && c.closed == [];
    a.Reset(h2);              // the sentinel is not closed
    assert c.closed == [];
    a.Swap(b);                // a: h1, b: h2
    b.ResetFrom(b);           // self-move is a no-op
    var r := a.Release();     // h1 leaves the wrappers unclosed
    assert r == h1 && c.closed == [];
    a.Reset(r);               // and comes back
    a.Destroy();              // closes h1
    b.Destroy();              // closes h2
    a.Destroy();              // nothing left to close
    closed := c.closed;
  }
}
