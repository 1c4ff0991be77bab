/** `StaticVector<Element, kCapacity>`: a vector whose elements live in a
    fixed inline array of `kCapacity` slots. Growing operations check the
    capacity before constructing anything, and a multi-element append that
    fails part-way pops exactly the elements it had pushed. */
module StaticVector {
  import opened Machine

  /** What the operations throw: `Exception` with a Win32 code, the
      `bad_array_new_length` of an overflowing size sum, or whatever an
      element's constructor throws. */
  datatype Error = Exception(code: nat) | BadArrayNewLength | ConstructorThrew

  /** The value made by each attempted element construction: `None` when that
      constructor throws. */
  type Construction<T> = Option<T>

  /** Every construction in `items` succeeds. */
  predicate AllBuilt<T>(items: seq<Construction<T>>)
  {
    forall i :: 0 <= i < |items| ==> items[i].Some?
  }

  /** The elements made by a run of constructions that all succeed. */
  function Built<T>(items: seq<Construction<T>>): (r: seq<T>)
    requires AllBuilt(items)
    ensures |r| == |items|
    ensures forall i :: 0 <= i < |items| ==> items[i] == Some(r[i])
  {
    seq(|items|, i requires 0 <= i < |items| => items[i].value)
  }

  /** The outcomes of the first `n` constructions `construct(0)`, ...,
      `construct(n - 1)`. */
  function Attempts<T>(construct: nat -> Construction<T>, n: nat): (r: seq<Construction<T>>)
    ensures |r| == n && forall i :: 0 <= i < n ==> r[i] == construct(i)
  {
    seq(n, i requires 0 <= i => construct(i))
  }

  /** The index of the first construction in `items` that throws, or
      `|items|` if none does. */
  function FirstThrow<T>(items: seq<Construction<T>>): (k: nat)
    ensures k <= |items|
    ensures forall i :: 0 <= i < k ==> items[i].Some?
    ensures k < |items| ==> items[k].None?
    ensures k == |items| <==> AllBuilt(items)
  {
    if items == [] then 0
    else if items[0].None? then 0
    else 1 + FirstThrow(items[1..])
  }

  /** `Impl_CheckedSizeArithmetic::Add` followed by `Reserve`: the check
      `ReserveMore(delta)` makes against a vector holding `size` elements. */
  function ReserveMoreCheck(capacity: nat, size: nat, delta: size_t): (r: Outcome<Error>)
    requires size <= SIZE_MAX && capacity <= SIZE_MAX
    ensures r.Pass? <==> size + delta <= capacity
    ensures size + delta > SIZE_MAX ==> r == Fail(BadArrayNewLength)
    ensures size + delta <= SIZE_MAX && size + delta > capacity ==> r == Fail(Exception(ERROR_OUTOFMEMORY))
  {
    if size + delta > SIZE_MAX then Fail(BadArrayNewLength)
    else if size + delta > capacity then Fail(Exception(ERROR_OUTOFMEMORY))
    else Pass
  }

  class StaticVector<T(0)> {
    /** `kCapacityT`, required to be non-zero. */
    const capacity: nat
    /** `x_aStorage`: the slots; only the first `size` hold live elements. */
    var storage: array<T>
    /** `x_uSize`. */
    var size: nat

    /** The inline array takes at least one byte per slot of the address
        space, so `kCapacityT` is below `SIZE_MAX`. */
    ghost predicate Valid()
      reads this
    {
      0 < capacity < SIZE_MAX && storage.Length == capacity && size <= capacity
    }

    /** The live elements, in order. */
    function Contents(): (s: seq<T>)
      reads this, storage
      requires Valid()
      ensures |s| == size
    {
      storage[..size]
    }

    constructor (capacity: nat)
      requires 0 < capacity < SIZE_MAX
      ensures Valid() && fresh(storage) && this.capacity == capacity && Contents() == []
    {
      this.capacity := capacity;
      storage := new T[capacity];
      size := 0;
    }

    /** `GetCapacityRemaining()`: how many more elements fit. */
    function CapacityRemaining(): (r: nat)
      reads this
      requires Valid()
      ensures size + r == capacity
    {
      capacity - size
    }

    /** `Get(i)` throws `ERROR_ACCESS_DENIED` exactly when `i` is out of range. */
    function Get(i: size_t): (r: Result<T, Error>)
      reads this, storage
      requires Valid()
      ensures r.Success? <==> i < |Contents()|
      ensures r.Success? ==> r.value == Contents()[i]
      ensures r.Failure? ==> r.error == Exception(ERROR_ACCESS_DENIED)
    {
      if i >= size then Failure(Exception(ERROR_ACCESS_DENIED)) else Success(storage[i])
    }

    /** `Reserve(n)` changes nothing and throws iff `n` exceeds the capacity. */
    function Reserve(n: size_t): (r: Outcome<Error>)
      reads this
      ensures r.Pass? <==> n <= capacity
      ensures r.Fail? ==> r.error == Exception(ERROR_OUTOFMEMORY)
    {
      if n > capacity then Fail(Exception(ERROR_OUTOFMEMORY)) else Pass
    }

    /** `ReserveMore(delta)`: `Reserve(delta + size)` with the sum checked. */
    function ReserveMore(delta: size_t): (r: Outcome<Error>)
      reads this
      requires Valid()
      ensures r.Pass? <==> size + delta <= capacity
      ensures r == ReserveMoreCheck(capacity, size, delta)
    {
      if size + delta > SIZE_MAX then Fail(BadArrayNewLength) else Reserve(size + delta)
    }

    /** `UncheckedPush`: the caller guarantees a free slot; the element is
        constructed in slot `size`, and only if that succeeds does the size
        grow. Earlier elements are untouched. */
    method UncheckedPush(x: Construction<T>) returns (r: Outcome<Error>)
      requires Valid() && size < capacity
      modifies this, storage
      ensures Valid() && storage == old(storage)
      ensures r.Pass? <==> x.Some?
      ensures r.Fail? ==> r.error == ConstructorThrew && size == old(size) && Contents() == old(Contents())
      ensures r.Pass? ==> Contents() == old(Contents()) + [x.value]
    {
      if x.None? {
        return Fail(ConstructorThrew);
      }
      storage[size] := x.value;
      size := size + 1;
      r := Pass;
    }

    /** `Push`: `ReserveMore(1)`, then `UncheckedPush`. On a full vector it
        throws before constructing anything and leaves the elements as they
        were. */
    method Push(x: Construction<T>) returns (r: Outcome<Error>)
      requires Valid()
      modifies this, storage
      ensures Valid() && storage == old(storage)
      ensures old(size) == capacity ==> r == Fail(Exception(ERROR_OUTOFMEMORY))
      ensures old(size) < capacity && r.Fail? ==> r.error == ConstructorThrew
      ensures r.Pass? <==> old(size) < capacity && x.Some?
      ensures r.Fail? ==> Contents() == old(Contents())
      ensures r.Pass? ==> Contents() == old(Contents()) + [x.value]
    {
      r := ReserveMore(1);
      if r.Fail? {
        return;
      }
      r := UncheckedPush(x);
    }

    /** `Pop(n)`: the caller guarantees `n <= size`; the last `n` elements
        are destroyed and the rest are untouched. */
    method Pop(n: nat)
      requires Valid() && n <= size
      modifies this
      ensures Valid() && storage == old(storage)
      ensures size == old(size) - n
      ensures Contents() == old(Contents())[..old(size) - n]
    {
      size := size - n;
    }

    /** `Clear()` is `Pop(size)`. */
    method Clear()
      requires Valid()
      modifies this
      ensures Valid() && storage == old(storage) && Contents() == []
    {
      Pop(size);
    }

    /** `Append(n, params...)`: reserves room for all `n` elements first (so a
        request over the remaining capacity appends nothing), then constructs
        them one at a time; `construct(i)` is the outcome of the `i`-th
        construction. When one throws, exactly the elements pushed so far are
        popped, restoring the old contents. */
    method AppendN(n: size_t, construct: nat -> Construction<T>) returns (r: Outcome<Error>)
      requires Valid()
      modifies this, storage
      ensures Valid() && storage == old(storage)
      ensures old(size) + n > capacity ==> r == ReserveMoreCheck(capacity, old(size), n)
      ensures old(size) + n <= capacity && r.Fail? ==> r.error == ConstructorThrew
      ensures r.Pass? <==> old(size) + n <= capacity && AllBuilt(Attempts(construct, n))
      ensures r.Fail? ==> Contents() == old(Contents())
      ensures r.Pass? ==> Contents() == old(Contents()) + Built(Attempts(construct, n))
    {
      r := ReserveMore(n);
      if r.Fail? {
        return;
      }
      // uElementsPushed: the source keeps it beside the loop index, which it always equals.
      var pushed := 0;
      while pushed < n
        invariant Valid() && storage == old(storage)
        invariant pushed <= n && size == old(size) + pushed
        invariant AllBuilt(Attempts(construct, pushed))
        invariant Contents() == old(Contents()) + Built(Attempts(construct, pushed))
      {
        var p := UncheckedPush(construct(pushed));
        if p.Fail? {
          Pop(pushed);
          assert Contents() == old(Contents());
          return p;
        }
        pushed := pushed + 1;
      }
    }

    /** `Append(begin, end)` over an iterator range whose element copies have
        the outcomes `items`. With forward iterators (`forward`) the distance
        is reserved up front and each element pushed unchecked; with input
        iterators each element goes through the checked `Push`. Either way a
        failure pops what was pushed, so the contents are as before. */
    method AppendRange(items: seq<Construction<T>>, forward: bool) returns (r: Outcome<Error>)
      requires Valid() && |items| <= SIZE_MAX
      modifies this, storage
      ensures Valid() && storage == old(storage)
      ensures r.Pass? <==> old(size) + |items| <= capacity && AllBuilt(items)
      ensures r.Fail? ==> Contents() == old(Contents())
      ensures r.Pass? ==> Contents() == old(Contents()) + Built(items)
      ensures forward && r.Fail? ==>
        r == (if old(size) + |items| > capacity then ReserveMoreCheck(capacity, old(size), |items|)
              else Fail(ConstructorThrew))
      ensures !forward && r.Fail? ==>
        r.error == (if capacity - old(size) <= FirstThrow(items) then Exception(ERROR_OUTOFMEMORY) else ConstructorThrew)
    {
      if forward {
        r := ReserveMore(|items|);
        if r.Fail? {
          return;
        }
      }
      var pushed := 0;
      while pushed < |items|
        invariant Valid() && storage == old(storage)
        invariant pushed <= |items| && size == old(size) + pushed
        invariant forall i :: 0 <= i < pushed ==> items[i].Some?
        invariant Contents() == old(Contents()) + Built(items[..pushed])
        invariant forward ==> old(size) + |items| <= capacity
      {
        var p;
        if forward {
          p := UncheckedPush(items[pushed]);
        } else {
          p := Push(items[pushed]);
        }
        if p.Fail? {
          Pop(pushed);
          assert Contents() == old(Contents());
          assert items[pushed].None? ==> FirstThrow(items) == pushed;
          assert pushed <= FirstThrow(items);
          return p;
        }
        assert items[..pushed + 1] == items[..pushed] + [items[pushed]];
        pushed := pushed + 1;
      }
      assert items[..pushed] == items;
      r := Pass;
    }

    /** `Resize(n, params...)`: appends when growing and pops when shrinking,
        so on success the size is exactly `n`. */
    method Resize(n: size_t, construct: nat -> Construction<T>) returns (r: Outcome<Error>)
      requires Valid()
      modifies this, storage
      ensures Valid() && storage == old(storage)
      ensures n <= old(size) ==> r.Pass? && Contents() == old(Contents())[..n]
      ensures n > old(size) ==>
        (r.Pass? <==> n <= capacity && AllBuilt(Attempts(construct, n - old(size))))
      ensures n > old(size) && r.Fail? ==>
        r.error == (if n > capacity then Exception(ERROR_OUTOFMEMORY) else ConstructorThrew)
      ensures r.Pass? ==> size == n
      ensures r.Pass? && n > old(size) ==>
        Contents() == old(Contents()) + Built(Attempts(construct, n - old(size)))
      ensures r.Fail? ==> Contents() == old(Contents())
    {
      var oldSize := size;
      if n > oldSize {
        r := AppendN(n - oldSize, construct);
      } else {
        Pop(oldSize - n);
        r := Pass;
      }
    }

    /** `ResizeMore(delta, params...)`: appends `delta` elements and yields
        the index of the old end, where the new ones start. */
    method ResizeMore(delta: size_t, construct: nat -> Construction<T>) returns (r: Result<nat, Error>)
      requires Valid()
      modifies this, storage
      ensures Valid() && storage == old(storage)
      ensures r.Success? <==> old(size) + delta <= capacity && AllBuilt(Attempts(construct, delta))
      ensures r.Success? ==> r.value == old(size) && |Contents()| == old(size) + delta
      ensures r.Success? ==> Contents()[..r.value] == old(Contents())
      ensures r.Success? ==> Contents()[r.value..] == Built(Attempts(construct, delta))
      ensures r.Failure? ==>
        Fail(r.error) == (if old(size) + delta > capacity then ReserveMoreCheck(capacity, old(size), delta) else Fail(ConstructorThrew))
      ensures r.Failure? ==> Contents() == old(Contents())
    {
      var oldSize := size;
      var a := AppendN(delta, construct);
      if a.Fail? {
        return Failure(a.error);
      }
      r := Success(oldSize);
    }
  }

  /** The scenario of the library's test driver: six pushes into a
      `StaticVector<int, 5>`. The sixth throws `ERROR_OUTOFMEMORY` and the
      five elements pushed before it are kept, in order. */
  method PushSixIntoFive() returns (elements: seq<int>, error: Error)
    ensures elements == [0, 1, 2, 3, 4]
    ensures error == Exception(ERROR_OUTOFMEMORY)
  {
    var v := new StaticVector<int>(5);
    var i := 0;
    error := ConstructorThrew;
    while i < 6
      invariant 0 <= i <= 5 && v.Valid() && v.capacity == 5 && fresh(v.storage)
      invariant v.Contents() == seq(i, k => k)
    {
      var r := v.Push(Some(i));
      if r.Fail? {
        error := r.error;
        break;
      }
      i := i + 1;
    }
    elements := v.Contents();
  }
}
