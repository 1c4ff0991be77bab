/** `VarChar<kCapacity>`: a fixed-capacity narrow string stored inline in
    `kCapacity + 1` bytes. The last byte holds the complement of the length
    (capacity - size), so a default-constructed string needs no separate
    length field, and a full string has a zero there, which doubles as the
    NUL terminator that `GetStr` writes. */
module VarChar {
  import opened Machine

  /** What the operations throw: `Exception` with a Win32 code, or
      `std::bad_array_new_length` when a size computation wraps. */
  datatype Error = Exception(code: nat) | BadArrayNewLength

  /** The length byte stored for a string of `size` chars. */
  function LengthByte(cap: nat, size: nat): byte
    requires size <= cap < 0x100
  {
    (cap - size) as byte
  }

  /** `GetSize`: `static_cast<unsigned>(kCapacity) - byte`, computed in
      `unsigned int`, so a length byte above the capacity wraps. */
  function SizeOfLengthByte(cap: nat, b: byte): nat
    requires cap < 0x100
  {
    (cap - b as int) % UINT_MODULUS
  }

  /** Decoding the stored length byte gives back the size that was stored. */
  lemma SizeRoundTrip(cap: nat, size: nat)
    requires size <= cap < 0x100
    ensures SizeOfLengthByte(cap, LengthByte(cap, size)) == size
  {
  }

  /** Every length byte not above the capacity is the encoding of its size;
      a full string (and only a full string) has a zero length byte. */
  lemma LengthByteRoundTrip(cap: nat, b: byte)
    requires cap < 0x100 && b as int <= cap
    ensures SizeOfLengthByte(cap, b) <= cap
    ensures LengthByte(cap, SizeOfLengthByte(cap, b)) == b
    ensures b == 0 <==> SizeOfLengthByte(cap, b) == cap
  {
  }

  /** The reverse of a sequence, by position. */
  function Reversed(s: seq<byte>): (r: seq<byte>)
    ensures |r| == |s|
  {
    seq(|s|, i requires 0 <= i < |s| => s[|s| - 1 - i])
  }

  /** Reversing twice gives back the original. */
  lemma ReversedInvolution(s: seq<byte>)
    ensures Reversed(Reversed(s)) == s
  {
  }

  class VarChar {
    /** `kCapacityT`, an `unsigned char` template argument. */
    const capacity: nat
    /** `x_achData`: `capacity` chars followed by the length byte. */
    var data: array<byte>

    ghost predicate Valid()
      reads this, data
    {
      && capacity < 0x100
      && data.Length == capacity + 1
      && data[capacity] as int <= capacity
    }

    /** `GetSize`, read from the length byte: for a length byte not above
        the capacity, the size whose encoding it is; for a larger byte, the
        `unsigned int` subtraction wraps to a huge size. */
    function Size(): (n: nat)
      reads this, data
      requires capacity < 0x100 && data.Length == capacity + 1
      ensures data[capacity] as int <= capacity ==> n <= capacity && LengthByte(capacity, n) == data[capacity]
      ensures capacity < data[capacity] as int ==> n == UINT_MODULUS - (data[capacity] as int - capacity)
    {
      SizeOfLengthByte(capacity, data[capacity])
    }

    /** `GetView()`: the chars of the string, the first `Size()` bytes of the buffer. */
    function Contents(): (s: seq<byte>)
      reads this, data
      requires Valid()
      ensures |s| == Size() <= capacity
    {
      LengthByteRoundTrip(capacity, data[capacity]);
      data[..Size()]
    }

    /** The default constructor stores `kCapacity` in the length byte: the
        string is empty. */
    constructor (capacity: nat)
      requires capacity < 0x100
      ensures Valid() && fresh(data) && this.capacity == capacity
      ensures Size() == 0 && Contents() == []
    {
      this.capacity := capacity;
      var buf := new byte[capacity + 1];
      buf[capacity] := capacity as byte;
      data := buf;
    }

    /** `IsEmpty()`: no chars, that is, the length byte holds the capacity. */
    function IsEmpty(): (r: bool)
      reads this, data
      requires Valid()
      ensures r <==> Contents() == []
      ensures r <==> data[capacity] as int == capacity
    {
      Size() == 0
    }

    /** `Get(i)` throws `ERROR_ACCESS_DENIED` exactly when `i` is out of range,
        and otherwise yields the `i`-th char. */
    function Get(i: size_t): (r: Result<byte, Error>)
      reads this, data
      requires Valid()
      ensures r.Success? <==> i < Size()
      ensures r.Success? ==> r.value == Contents()[i]
      ensures r.Failure? ==> r.error == Exception(ERROR_ACCESS_DENIED)
    {
      LengthByteRoundTrip(capacity, data[capacity]);
      if i >= Size() then Failure(Exception(ERROR_ACCESS_DENIED)) else Success(data[i])
    }

    /** `Resize(n)`: over the capacity it throws and changes nothing;
        otherwise the size becomes `n` and no char is touched, so growing
        exposes whatever the buffer held past the old end. */
    method Resize(n: size_t) returns (r: Outcome<Error>)
      requires Valid()
      modifies data
      ensures Valid()
      ensures r.Pass? <==> n <= capacity
      ensures r.Fail? ==> r.error == Exception(ERROR_OUTOFMEMORY) && data[..] == old(data[..])
      ensures r.Pass? ==> Size() == n && data[..capacity] == old(data[..capacity])
      ensures r.Pass? ==> Contents() == old(data[..n])
    {
      if n > capacity {
        return Fail(Exception(ERROR_OUTOFMEMORY));
      }
      data[capacity] := LengthByte(capacity, n);
      SizeRoundTrip(capacity, n);
      r := Pass;
    }

    /** `ResizeMore(delta)`: grows by `delta` chars and yields the offset of
        the old end. The sum is computed in `size_t`; a wrap-around throws
        `bad_array_new_length`, a sum over the capacity throws like `Resize`;
        either way nothing changes. */
    method ResizeMore(delta: size_t) returns (r: Result<nat, Error>)
      requires Valid()
      modifies data
      ensures Valid()
      ensures old(Size()) + delta > SIZE_MAX ==>
        r == Failure(BadArrayNewLength)
      ensures old(Size()) + delta <= SIZE_MAX && old(Size()) + delta > capacity ==>
        r == Failure(Exception(ERROR_OUTOFMEMORY))
      ensures r.Success? <==> old(Size()) + delta <= capacity
      ensures r.Failure? ==> data[..] == old(data[..])
      ensures r.Success? ==>
        && r.value == old(Size())
        && Size() == old(Size()) + delta
        && data[..capacity] == old(data[..capacity])
    {
      var oldSize := Size();
      LengthByteRoundTrip(capacity, data[capacity]);
      var newSize := (oldSize + delta) % (SIZE_MAX + 1);
      if newSize < oldSize {
        return Failure(BadArrayNewLength);
      }
      var s := Resize(newSize);
      if s.Fail? {
        return Failure(s.error);
      }
      r := Success(oldSize);
    }

    /** `GetStr`: writes a NUL after the last char and leaves the size and the
        chars alone. For a full string that NUL lands on the length byte,
        which is zero already. */
    method GetStr() returns (str: seq<byte>)
      requires Valid()
      modifies data
      ensures Valid()
      ensures data[..] == old(data[..])[old(Size()) := 0]
      ensures Size() == old(Size()) && Contents() == old(Contents())
      ensures data[Size()] == 0 && str == Contents()
    {
      LengthByteRoundTrip(capacity, data[capacity]);
      data[Size()] := 0;
      str := data[..Size()];
    }

    /** `FillN(data + from, count, ch)`. */
    method Fill(from: nat, count: nat, ch: byte)
      requires from + count <= data.Length
      modifies data
      ensures data[..] == old(data[..from]) + seq(count, _ => ch) + old(data[from + count..])
    {
      for i := from to from + count
        invariant data[..] == old(data[..from]) + seq(i - from, _ => ch) + old(data[i..])
      {
        data[i] := ch;
      }
    }

    /** `Copy(data + from, src.begin, src.end)`. */
    method CopyIn(from: nat, src: seq<byte>)
      requires from + |src| <= data.Length
      modifies data
      ensures data[..] == old(data[..from]) + src + old(data[from + |src|..])
    {
      for i := 0 to |src|
        invariant data[..] == old(data[..from]) + src[..i] + old(data[from + i..])
      {
        data[from + i] := src[i];
      }
    }

    /** `Assign(ch, n)`: `n` copies of `ch`, or a throw over the capacity. */
    method AssignFill(ch: byte, n: size_t) returns (r: Outcome<Error>)
      requires Valid()
      modifies data
      ensures Valid()
      ensures r.Pass? <==> n <= capacity
      ensures r.Fail? ==> r.error == Exception(ERROR_OUTOFMEMORY) && data[..] == old(data[..])
      ensures r.Pass? ==> Contents() == seq(n, _ => ch)
    {
      r := Resize(n);
      if r.Fail? {
        return;
      }
      var _ := GetStr();
      Fill(0, n, ch);
      assert data[capacity] == LengthByte(capacity, n);
    }

    /** `Assign(view)`: the contents become the chars of `src`. */
    method Assign(src: seq<byte>) returns (r: Outcome<Error>)
      requires Valid() && |src| <= SIZE_MAX
      modifies data
      ensures Valid()
      ensures r.Pass? <==> |src| <= capacity
      ensures r.Fail? ==> r.error == Exception(ERROR_OUTOFMEMORY) && data[..] == old(data[..])
      ensures r.Pass? ==> Contents() == src
    {
      r := Resize(|src|);
      if r.Fail? {
        return;
      }
      var _ := GetStr();
      CopyIn(0, src);
      assert data[capacity] == LengthByte(capacity, |src|);
    }

    /** `Assign(const VarChar &)`: copying a string onto itself does nothing;
        otherwise the contents become those of `rhs`. */
    method AssignFrom(rhs: VarChar) returns (r: Outcome<Error>)
      requires Valid() && rhs.Valid()
      modifies data
      ensures Valid()
      ensures rhs == this ==> r.Pass? && data[..] == old(data[..])
      ensures rhs != this ==> (r.Pass? <==> old(rhs.Size()) <= capacity)
      ensures rhs != this && r.Pass? ==> Contents() == old(rhs.Contents())
      ensures r.Fail? ==> data[..] == old(data[..])
    {
      if rhs == this {
        return Pass;
      }
      r := Assign(rhs.Contents());
    }

    /** `Copy(data, data + from, data + from + n)`: a front-to-back copy of
        `n` chars of the buffer down to its start. Each char is read before
        anything at or below its position is overwritten, so the overlapping
        copy moves the old chars intact. */
    method CopyDown(from: nat, n: nat)
      requires from + n <= data.Length
      modifies data
      ensures data[..n] == old(data[from..from + n])
      ensures data[n..] == old(data[n..])
    {
      for k := 0 to n
        invariant data[..k] == old(data[from..from + k])
        invariant data[k..] == old(data[k..])
      {
        assert data[from + k] == old(data[from + k]);
        data[k] := data[from + k];
      }
    }

    /** `Assign(view)` where the view is `Slice(from, from + n)` of this very
        string, as the code is written: `Resize(n)`, then `GetStr` writes a
        NUL at index `n`, then `Copy` reads the view. When `0 < from <= n`
        that NUL lies inside the view, so the char at position `n - from` of
        the result is 0 instead of the view's char. */
    method AssignOwnSliceAsWritten(from: nat, n: nat) returns (r: Outcome<Error>)
      requires Valid() && from + n <= Size()
      modifies data
      ensures Valid() && r.Pass? && Size() == n
      ensures 0 < from <= n ==> Contents() == old(Contents())[from..from + n][n - from := 0]
      ensures from == 0 || n < from ==> Contents() == old(Contents())[from..from + n]
    {
      ghost var before := Contents();
      LengthByteRoundTrip(capacity, data[capacity]);
      r := Resize(n);
      ghost var resized := data[..];
      assert forall k :: 0 <= k < from + n ==> resized[k] == before[k] by {
        assert resized[..capacity] == old(data[..capacity]);
      }
      var _ := GetStr();
      ghost var nul := data[..];
      assert nul == resized[n := 0];
      CopyDown(from, n);
      assert data[..n] == nul[from..from + n];
      assert data[capacity] == LengthByte(capacity, n);
      ghost var after := before[from..from + n];
      if 0 < from <= n {
        after := after[n - from := 0];
      }
      forall k | 0 <= k < n
        ensures data[k] == after[k]
      {
        assert data[k] == data[..n][k] == nul[from..from + n][k];
      }
      assert Contents() == data[..n] == after;
    }

    /** The same assignment as evidently intended: the view's chars are
        copied before the terminator is written, so the contents become
        exactly the view, whatever its offset. */
    method AssignOwnSlice(from: nat, n: nat) returns (r: Outcome<Error>)
      requires Valid() && from + n <= Size()
      modifies data
      ensures Valid() && r.Pass? && Size() == n
      ensures Contents() == old(Contents())[from..from + n]
    {
      ghost var before := Contents();
      LengthByteRoundTrip(capacity, data[capacity]);
      r := Resize(n);
      ghost var resized := data[..];
      assert forall k :: 0 <= k < from + n ==> resized[k] == before[k] by {
        assert resized[..capacity] == old(data[..capacity]);
      }
      CopyDown(from, n);
      assert data[..n] == resized[from..from + n];
      assert data[capacity] == LengthByte(capacity, n);
      forall k | 0 <= k < n
        ensures data[k] == before[from + k]
      {
        assert data[k] == data[..n][k] == resized[from..from + n][k];
      }
      assert data[..n] == before[from..from + n];
      var _ := GetStr();
    }

    /** `Append(ch, n)`: `n` copies of `ch` after the old contents, or a throw
        (wrap-around or capacity) that leaves the string unchanged. */
    method AppendFill(ch: byte, n: size_t) returns (r: Outcome<Error>)
      requires Valid()
      modifies data
      ensures Valid()
      ensures r.Pass? <==> old(Size()) + n <= capacity
      ensures r.Fail? ==>
        r.error == (if old(Size()) + n > SIZE_MAX then BadArrayNewLength else Exception(ERROR_OUTOFMEMORY))
      ensures r.Fail? ==> data[..] == old(data[..])
      ensures r.Pass? ==> Contents() == old(Contents()) + seq(n, _ => ch)
    {
      var w := ResizeMore(n);
      if w.Failure? {
        return Fail(w.error);
      }
      ghost var before := data[..];
      Fill(w.value, n, ch);
      assert data[capacity] == before[capacity];
      r := Pass;
    }

    /** `Append(view)`: the chars of `src` after the old contents. */
    method Append(src: seq<byte>) returns (r: Outcome<Error>)
      requires Valid() && |src| <= SIZE_MAX
      modifies data
      ensures Valid()
      ensures r.Pass? <==> old(Size()) + |src| <= capacity
      ensures r.Fail? ==>
        r.error == (if old(Size()) + |src| > SIZE_MAX then BadArrayNewLength else Exception(ERROR_OUTOFMEMORY))
      ensures r.Fail? ==> data[..] == old(data[..])
      ensures r.Pass? ==> Contents() == old(Contents()) + src
    {
      var w := ResizeMore(|src|);
      if w.Failure? {
        return Fail(w.error);
      }
      ghost var before := data[..];
      CopyIn(w.value, src);
      assert data[capacity] == before[capacity];
      r := Pass;
    }

    /** `Push(ch)` is `Append(ch, 1)`. */
    method Push(ch: byte) returns (r: Outcome<Error>)
      requires Valid()
      modifies data
      ensures Valid()
      ensures r.Pass? <==> old(Size()) < capacity
      ensures r.Fail? ==> r.error == Exception(ERROR_OUTOFMEMORY)
      ensures r.Fail? ==> data[..] == old(data[..])
      ensures r.Pass? ==> Contents() == old(Contents()) + [ch]
    {
      r := AppendFill(ch, 1);
    }

    /** `UncheckedPush` as written: it stores `ch` at the index given by the
        complement byte (capacity - size), not at index size, and then
        decrements the complement byte. */
    method UncheckedPushAsWritten(ch: byte)
      requires Valid() && Size() < capacity
      modifies data
      ensures var c := old(data[capacity]) as int;
        var b := if c == capacity then ch as int else c;
        data[..] == old(data[..])[c := ch][capacity := ((b - 1) % 0x100) as byte]
    {
      var c := data[capacity];
      data[c] := ch;
      data[capacity] := ((data[capacity] as int - 1) % 0x100) as byte;
    }

    /** `UncheckedPush` as evidently intended: `ch` goes at index size. The
        caller guarantees room (a debug-checked precondition). */
    method UncheckedPush(ch: byte)
      requires Valid() && Size() < capacity
      modifies data
      ensures Valid()
      ensures Contents() == old(Contents()) + [ch]
      ensures data[..capacity] == old(data[..capacity])[old(Size()) := ch]
    {
      LengthByteRoundTrip(capacity, data[capacity]);
      data[Size()] := ch;
      data[capacity] := data[capacity] - 1;
    }

    /** `Pop(n)`: drops the last `n` chars (the caller guarantees `n <= size`)
        and leaves the remaining ones untouched. */
    method Pop(n: nat)
      requires Valid() && n <= Size()
      modifies data
      ensures Valid()
      ensures Size() == old(Size()) - n
      ensures data[..capacity] == old(data[..capacity])
      ensures Contents() == old(Contents())[..old(Size()) - n]
    {
      LengthByteRoundTrip(capacity, data[capacity]);
      data[capacity] := data[capacity] + n as byte;
    }

    /** `Clear()` is `Resize(0)`. */
    method Clear()
      requires Valid()
      modifies data
      ensures Valid() && Contents() == []
      ensures data[..capacity] == old(data[..capacity])
    {
      var _ := Resize(0);
    }

    /** `Reverse()`: swaps chars pairwise from both ends towards the middle. */
    method Reverse()
      requires Valid()
      modifies data
      ensures Valid()
      ensures Size() == old(Size())
      ensures Contents() == Reversed(old(Contents()))
      ensures data[Size()..] == old(data[Size()..])
    {
      LengthByteRoundTrip(capacity, data[capacity]);
      var n := Size();
      if n == 0 {
        return;
      }
      ghost var a := data[..];
      var i, j := 0, n - 1;
      while i < j
        invariant 0 <= i <= n && j < n && i + j == n - 1
        invariant forall k :: 0 <= k < i ==> data[k] == a[n - 1 - k] && data[n - 1 - k] == a[k]
        invariant forall k :: i <= k <= j ==> data[k] == a[k]
        invariant data[n..] == a[n..]
      {
        data[i], data[j] := data[j], data[i];
        i, j := i + 1, j - 1;
      }
    }
  }

  /** Evidence for the `UncheckedPush` defect: pushing `'a'` (97) onto an
      empty `VarChar<8>` overwrites the length byte, which then reads 96, so
      `GetSize` wraps to 2^32 - 88 instead of 1. */
  method UncheckedPushOnEmpty() returns (size: nat)
    ensures size == UINT_MODULUS - 88
  {
    var v := new VarChar(8);
    v.UncheckedPushAsWritten(97);
    assert v.data[8] == 96;
    size := v.Size();
  }

  /** Evidence for the self-`Assign` defect: "abcd" assigned its own slice
      from index 1 becomes "bc" followed by a NUL, not "bcd". */
  method AssignOwnSliceOnAbcd() returns (asWritten: seq<byte>, intended: seq<byte>)
    ensures asWritten == [98, 99, 0]
    ensures intended == [98, 99, 100]
  {
    var v := new VarChar(8);
    var r := v.Assign([97, 98, 99, 100]);
    r := v.AssignOwnSliceAsWritten(1, 3);
    asWritten := v.Contents();
    var w := new VarChar(8);
    r := w.Assign([97, 98, 99, 100]);
    r := w.AssignOwnSlice(1, 3);
    intended := w.Contents();
  }

  /** With the intended write position the same push yields the string "a". */
  method UncheckedPushOnEmptyIntended() returns (size: nat, s: seq<byte>)
    ensures size == 1 && s == [97]
  {
    var v := new VarChar(8);
    v.UncheckedPush(97);
    size := v.Size();
    s := v.GetStr();
  }
}
