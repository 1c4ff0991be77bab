/** `MCFBUILD_StringStack`: a stack of wide strings packed into one growable
    byte buffer. Each record is a `StackElement` header word followed by the
    string's `wchar_t` units and a NUL, padded to a multiple of 8 bytes. The
    header packs the padding length into its low 3 bits and the previous
    top's offset, in 8-byte words, into the other 61. `top` is the offset of
    the newest record and `end` the offset just past it. */
module StringStack {
  import opened Machine

  /** `sizeof(StackElement)`: one `size_t` of bit-fields. */
  const HEADER_SIZE: nat := 8
  /** `sizeof(wchar_t)`. */
  const WCHAR_SIZE: nat := 2
  /** One more than the largest `uOffsetPrevInWords` (a 61-bit field). */
  const PREV_FIELD_MODULUS: nat := 0x2000_0000_0000_0000

  function Pow256(n: nat): (r: nat)
    ensures r > 0
  {
    if n == 0 then 1 else 256 * Pow256(n - 1)
  }

  /** The `n` low-order bytes of `w`, least significant first (x86 order). */
  function EncodeLE(w: nat, n: nat): (b: seq<byte>)
    ensures |b| == n
  {
    if n == 0 then [] else [(w % 256) as byte] + EncodeLE(w / 256, n - 1)
  }

  /** The number whose little-endian bytes are `b`. */
  function DecodeLE(b: seq<byte>): nat
  {
    if b == [] then 0 else b[0] as nat + 256 * DecodeLE(b[1..])
  }

  /** Reading back a stored word yields the word, for any word that fits. */
  lemma {:induction false} DecodeEncodeLE(w: nat, n: nat)
    requires w < Pow256(n)
    ensures DecodeLE(EncodeLE(w, n)) == w
  {
    if n > 0 {
      assert w / 256 < Pow256(n - 1);
      DecodeEncodeLE(w / 256, n - 1);
      assert EncodeLE(w, n)[1..] == EncodeLE(w / 256, n - 1);
    }
  }

  /** `(uLength + 1) * sizeof(wchar_t) + sizeof(StackElement)`: header,
      units and terminator. */
  function UnpaddedSize(length: nat): nat
  {
    (length + 1) * WCHAR_SIZE + HEADER_SIZE
  }

  /** `-uSizeToAdd % 8` in `size_t`: the padding that brings a record to
      the next multiple of 8 bytes. */
  function Padding(length: nat): (pad: nat)
    ensures pad < 8 && (UnpaddedSize(length) + pad) % 8 == 0
  {
    (SIZE_MAX + 1 - UnpaddedSize(length)) % 8
  }

  /** The bytes a record of a string of `length` units occupies. */
  function RecordSize(length: nat): (size: nat)
    ensures size % 8 == 0 && UnpaddedSize(length) <= size < UnpaddedSize(length) + 8
  {
    UnpaddedSize(length) + Padding(length)
  }

  /** The header word: `uSizePadded` in bits 0-2 and `uOffsetPrevInWords`
      (`(prevTop / 8) & (SIZE_MAX >> 3)`) in bits 3-63. */
  function Header(pad: nat, prevTop: nat): nat
  {
    pad % 8 + 8 * ((prevTop / 8) % PREV_FIELD_MODULUS)
  }

  /** For a padding below 8 and an 8-aligned previous top, the header fits
      in a `size_t` and both fields read back unchanged. */
  lemma HeaderFields(pad: nat, prevTop: nat)
    requires pad < 8 && prevTop % 8 == 0 && prevTop <= SIZE_MAX
    ensures Header(pad, prevTop) < SIZE_MAX + 1
    ensures Header(pad, prevTop) % 8 == pad
    ensures (Header(pad, prevTop) / 8) * 8 == prevTop
  {
  }

  /** The bytes of `wchar_t` units, each little-endian. */
  function UnitBytes(s: seq<wchar>): (b: seq<byte>)
    ensures |b| == WCHAR_SIZE * |s|
  {
    seq(2 * |s|, k requires 0 <= k < 2 * |s| =>
      if k % 2 == 0 then (s[k / 2] as int % 256) as byte else (s[k / 2] as int / 256) as byte)
  }

  /** The `length` units whose bytes start `b`. */
  function ReadUnits(b: seq<byte>, length: nat): (s: seq<wchar>)
    requires WCHAR_SIZE * length <= |b|
    ensures |s| == length
  {
    seq(length, i requires 0 <= i < length => (b[2 * i] as int + 256 * b[2 * i + 1] as int) as wchar)
  }

  lemma ReadUnitBytes(s: seq<wchar>)
    ensures ReadUnits(UnitBytes(s), |s|) == s
  {
    var b := UnitBytes(s);
    forall i | 0 <= i < |s|
      ensures ReadUnits(b, |s|)[i] == s[i]
    {
      assert b[2 * i] as int == s[i] as int % 256 && b[2 * i + 1] as int == s[i] as int / 256;
    }
  }

  /** What `Push` writes for `s` on top of a record at `prevTop`: the header,
      the units and the NUL. The padding bytes are left as they were. */
  function RecordBytes(s: seq<wchar>, prevTop: nat): (b: seq<byte>)
    ensures |b| == UnpaddedSize(|s|)
  {
    EncodeLE(Header(Padding(|s|), prevTop), HEADER_SIZE) + UnitBytes(s) + [0, 0]
  }

  /** `buf` holds, at offset `at`, a record of `s` linked to `prevTop`: its
      header word reads as that padding and link, and the units and NUL
      follow it. */
  ghost predicate RecordAt(buf: seq<byte>, at: nat, prevTop: nat, s: seq<wchar>)
  {
    && at + UnpaddedSize(|s|) <= |buf|
    && DecodeLE(buf[at..at + HEADER_SIZE]) == Header(Padding(|s|), prevTop)
    && buf[at + HEADER_SIZE..at + UnpaddedSize(|s|)] == UnitBytes(s) + [0, 0]
  }

  /** The bytes `Push` writes form a record that reads back as written. */
  lemma WrittenRecord(buf: seq<byte>, at: nat, prevTop: nat, s: seq<wchar>)
    requires at + UnpaddedSize(|s|) <= |buf|
    requires buf[at..at + UnpaddedSize(|s|)] == RecordBytes(s, prevTop)
    requires prevTop % 8 == 0 && prevTop <= SIZE_MAX
    ensures RecordAt(buf, at, prevTop, s)
  {
    var w := Header(Padding(|s|), prevTop);
    HeaderFields(Padding(|s|), prevTop);
    assert Pow256(8) == SIZE_MAX + 1;
    DecodeEncodeLE(w, HEADER_SIZE);
    var rec := buf[at..at + UnpaddedSize(|s|)];
    assert buf[at..at + HEADER_SIZE] == rec[..HEADER_SIZE] == EncodeLE(w, HEADER_SIZE);
    assert buf[at + HEADER_SIZE..at + UnpaddedSize(|s|)] == rec[HEADER_SIZE..];
  }

  /** Reading a record back: the header's low bits are the padding, its
      other bits the link, and the units and NUL follow the header. */
  lemma RecordRead(buf: seq<byte>, at: nat, prevTop: nat, s: seq<wchar>)
    requires RecordAt(buf, at, prevTop, s) && prevTop % 8 == 0 && prevTop <= SIZE_MAX
    ensures var hdr := DecodeLE(buf[at..at + HEADER_SIZE]);
      && hdr % 8 == Padding(|s|)
      && (hdr / 8) * 8 == prevTop
      && ReadUnits(buf[at + HEADER_SIZE..at + HEADER_SIZE + WCHAR_SIZE * |s|], |s|) == s
      && buf[at + HEADER_SIZE + WCHAR_SIZE * |s|] == 0
      && buf[at + HEADER_SIZE + WCHAR_SIZE * |s| + 1] == 0
  {
    HeaderFields(Padding(|s|), prevTop);
    var body := buf[at + HEADER_SIZE..at + UnpaddedSize(|s|)];
    assert buf[at + HEADER_SIZE..at + HEADER_SIZE + WCHAR_SIZE * |s|] == body[..WCHAR_SIZE * |s|] == UnitBytes(s);
    ReadUnitBytes(s);
    assert body[WCHAR_SIZE * |s|] == 0 && body[WCHAR_SIZE * |s| + 1] == 0;
  }

  /** The records only depend on the bytes they occupy. */
  lemma RecordFrame(buf: seq<byte>, buf': seq<byte>, bound: nat, at: nat, prevTop: nat, s: seq<wchar>)
    requires RecordAt(buf, at, prevTop, s) && at + UnpaddedSize(|s|) <= bound
    requires bound <= |buf| && bound <= |buf'| && buf'[..bound] == buf[..bound]
    ensures RecordAt(buf', at, prevTop, s)
  {
    forall k | 0 <= k < bound
      ensures buf'[k] == buf[k]
    {
      assert buf'[..bound][k] == buf[..bound][k];
    }
    assert buf'[at..at + HEADER_SIZE] == buf[at..at + HEADER_SIZE];
    assert buf'[at + HEADER_SIZE..at + UnpaddedSize(|s|)] == buf[at + HEADER_SIZE..at + UnpaddedSize(|s|)];
  }

  /** The link stored in record `i`: the offset of the record below it, or 0
      for the bottom record (pushed when `top` was 0). */
  function PrevStart(starts: seq<nat>, i: nat): nat
    requires i < |starts|
  {
    if i == 0 then 0 else starts[i - 1]
  }

  /** `buf` holds the records of `strs`, oldest first: record `i` starts at
      `starts[i]`, 8-aligned, right after record `i - 1`, and links to it.
      `starts` has one more entry, the end of the last record. */
  ghost predicate Layout(buf: seq<byte>, strs: seq<seq<wchar>>, starts: seq<nat>)
  {
    && |starts| == |strs| + 1
    && starts[0] == 0
    && (forall i :: 0 <= i < |starts| ==> starts[i] % 8 == 0)
    && (forall i {:trigger strs[i]} :: 0 <= i < |strs| ==> starts[i + 1] == starts[i] + RecordSize(|strs[i]|))
    && (forall i {:trigger RecordAt(buf, starts[i], PrevStart(starts, i), strs[i])} ::
          0 <= i < |strs| ==> RecordAt(buf, starts[i], PrevStart(starts, i), strs[i]))
  }

  /** Every record starts at or below the end of the newest one. */
  lemma {:induction false} StartBelowEnd(strs: seq<seq<wchar>>, starts: seq<nat>, i: nat)
    requires |starts| == |strs| + 1 && i < |starts|
    requires forall k {:trigger strs[k]} :: 0 <= k < |strs| ==> starts[k + 1] == starts[k] + RecordSize(|strs[k]|)
    ensures starts[i] <= starts[|strs|]
    decreases |strs| - i
  {
    if i < |strs| {
      assert starts[i + 1] == starts[i] + RecordSize(|strs[i]|);
      StartBelowEnd(strs, starts, i + 1);
    }
  }

  /** The records below the end survive any change above it. */
  lemma LayoutFrame(buf: seq<byte>, buf': seq<byte>, strs: seq<seq<wchar>>, starts: seq<nat>)
    requires Layout(buf, strs, starts)
    requires starts[|strs|] <= |buf| && starts[|strs|] <= |buf'|
    requires buf'[..starts[|strs|]] == buf[..starts[|strs|]]
    ensures Layout(buf', strs, starts)
  {
    forall i | 0 <= i < |strs|
      ensures RecordAt(buf', starts[i], PrevStart(starts, i), strs[i])
    {
      assert starts[i + 1] == starts[i] + RecordSize(|strs[i]|);
      StartBelowEnd(strs, starts, i + 1);
      RecordFrame(buf, buf', starts[|strs|], starts[i], PrevStart(starts, i), strs[i]);
    }
  }

  /** The newest record lies below the end, so `top == end` exactly when the
      stack is empty. */
  lemma TopBelowEnd(buf: seq<byte>, strs: seq<seq<wchar>>, starts: seq<nat>)
    requires Layout(buf, strs, starts)
    ensures PrevStart(starts, |strs|) <= starts[|strs|]
    ensures PrevStart(starts, |strs|) == starts[|strs|] <==> strs == []
  {
    if strs != [] {
      var n := |strs| - 1;
      assert starts[n + 1] == starts[n] + RecordSize(|strs[n]|);
    }
  }

  /** What `GetTop` and `Pop` read from the newest record of a non-empty
      stack: its padding and link, its units and its NUL, and the length
      `GetTop` derives from the offsets and the padding. */
  lemma TopFields(buf: seq<byte>, strs: seq<seq<wchar>>, starts: seq<nat>, top: nat, end: nat)
    requires Layout(buf, strs, starts) && strs != [] && end <= SIZE_MAX
    requires top == starts[|strs| - 1] && end == starts[|strs|]
    ensures top + UnpaddedSize(|strs[|strs| - 1]|) <= |buf|
    ensures var s := strs[|strs| - 1];
      var hdr := DecodeLE(buf[top..top + HEADER_SIZE]);
      && (end - top - hdr % 8 - HEADER_SIZE - WCHAR_SIZE) / WCHAR_SIZE == |s|
      && (hdr / 8) * 8 == PrevStart(starts, |strs| - 1)
      && ReadUnits(buf[top + HEADER_SIZE..top + HEADER_SIZE + WCHAR_SIZE * |s|], |s|) == s
      && buf[top + HEADER_SIZE + WCHAR_SIZE * |s|] == 0
      && buf[top + HEADER_SIZE + WCHAR_SIZE * |s| + 1] == 0
  {
    var n := |strs| - 1;
    assert starts[n + 1] == starts[n] + RecordSize(|strs[n]|);
    if n > 0 {
      assert starts[n] == starts[n - 1] + RecordSize(|strs[n - 1]|);
    }
    assert RecordAt(buf, starts[n], PrevStart(starts, n), strs[n]);
    RecordRead(buf, top, PrevStart(starts, n), strs[n]);
  }

  /** A record of `s` just past the records of `strs`, linked to the top,
      makes the records of `strs + [s]`. */
  lemma PushLayout(buf: seq<byte>, strs: seq<seq<wchar>>, starts: seq<nat>, s: seq<wchar>,
                    strs': seq<seq<wchar>>, starts': seq<nat>)
    requires Layout(buf, strs, starts)
    requires RecordAt(buf, starts[|strs|], PrevStart(starts, |strs|), s)
    requires strs' == strs + [s] && starts' == starts + [starts[|strs|] + RecordSize(|s|)]
    ensures Layout(buf, strs', starts')
  {
    var n := |strs|;
    forall i | 0 <= i < |starts'|
      ensures starts'[i] % 8 == 0
    {
      if i <= n {
        assert starts'[i] == starts[i];
      }
    }
    forall i {:trigger strs'[i]} | 0 <= i < |strs'|
      ensures starts'[i + 1] == starts'[i] + RecordSize(|strs'[i]|)
      ensures RecordAt(buf, starts'[i], PrevStart(starts', i), strs'[i])
    {
      assert starts'[i] == starts[i] && PrevStart(starts', i) == PrevStart(starts, i);
      if i < n {
        assert strs'[i] == strs[i] && starts'[i + 1] == starts[i + 1];
      }
    }
  }

  /** Dropping the newest record leaves the records below it. */
  lemma PopLayout(buf: seq<byte>, strs: seq<seq<wchar>>, starts: seq<nat>)
    requires Layout(buf, strs, starts) && strs != []
    ensures Layout(buf, strs[..|strs| - 1], starts[..|strs|])
  {
    var strs', starts' := strs[..|strs| - 1], starts[..|strs|];
    forall i | 0 <= i < |strs'|
      ensures RecordAt(buf, starts'[i], PrevStart(starts', i), strs'[i])
    {
      assert PrevStart(starts', i) == PrevStart(starts, i);
    }
  }

  /** `m` is a run of one bits, like `SIZE_MAX`. */
  predicate AllOnes(m: nat)
  {
    m == 0 || (m % 2 == 1 && AllOnes(m / 2))
  }

  /** One more one bit below a run of ones. */
  lemma AllOnesStep(m: nat)
    requires AllOnes(m)
    ensures AllOnes(2 * m + 1)
  {
    assert (2 * m + 1) % 2 == 1 && (2 * m + 1) / 2 == m;
  }

  /** Eight more one bits below a run of ones. */
  lemma AllOnesByte(m: nat)
    requires AllOnes(m)
    ensures AllOnes(256 * m + 255)
  {
    AllOnesStep(m);
    AllOnesStep(2 * m + 1);
    AllOnesStep(4 * m + 3);
    AllOnesStep(8 * m + 7);
    AllOnesStep(16 * m + 15);
    AllOnesStep(32 * m + 31);
    AllOnesStep(64 * m + 63);
    AllOnesStep(128 * m + 127);
  }

  lemma SizeMaxAllOnes()
    ensures AllOnes(SIZE_MAX)
  {
    AllOnesByte(0);
    AllOnesByte(0xFF);
    AllOnesByte(0xFFFF);
    AllOnesByte(0xFF_FFFF);
    AllOnesByte(0xFFFF_FFFF);
    AllOnesByte(0xFF_FFFF_FFFF);
    AllOnesByte(0xFFFF_FFFF_FFFF);
    AllOnesByte(0xFF_FFFF_FFFF_FFFF);
  }

  /** `a | b` on unsigned integers, bit by bit from the least significant. */
  function BitOr(a: nat, b: nat): nat
  {
    if a == 0 then b
    else if b == 0 then a
    else 2 * BitOr(a / 2, b / 2) + (if a % 2 == 1 || b % 2 == 1 then 1 else 0)
  }

  /** An OR has every bit of each operand, so it is at least each of them,
      and it sets no bit above the width of the type. */
  lemma {:induction false} BitOrBounds(a: nat, b: nat, m: nat)
    requires a <= m && b <= m && AllOnes(m)
    ensures a <= BitOr(a, b) && b <= BitOr(a, b) <= m
  {
    if a != 0 && b != 0 {
      BitOrBounds(a / 2, b / 2, m / 2);
    }
  }

  /** The new capacity `Push` asks for when the buffer is too small: half as
      much again, rounded up to 16, with the minimum and 0x400 OR-ed in, all
      in wrapping `size_t` arithmetic. Being an OR of both, it is at least
      each of them. */
  function GrownCapacity(capacity: size_t, minimum: size_t): (r: size_t)
    ensures r >= minimum && r >= 0x400
  {
    var c1 := (capacity + capacity / 2) % (SIZE_MAX + 1);
    var c2 := (c1 + 0x0F) % (SIZE_MAX + 1);
    var c3 := c2 - c2 % 0x10;
    SizeMaxAllOnes();
    BitOrBounds(c3, minimum, SIZE_MAX);
    var c4 := BitOr(c3, minimum);
    BitOrBounds(c4, 0x400, SIZE_MAX);
    BitOr(c4, 0x400)
  }

  class StringStack {
    /** `pbyStorage`, as many bytes as `uCapacity`. */
    var storage: array<byte>
    /** `uCapacity`. */
    var capacity: nat
    /** `uOffsetTop`. */
    var top: nat
    /** `uOffsetEnd`. */
    var end: nat
    /** The strings on the stack, oldest first. */
    ghost var contents: seq<seq<wchar>>
    /** The offset of each record, and last the offset past the newest one. */
    ghost var starts: seq<nat>

    ghost predicate Valid()
      reads this, storage
    {
      && storage.Length == capacity <= SIZE_MAX
      && Layout(storage[..], contents, starts)
      && end == starts[|contents|] <= capacity
      && top == PrevStart(starts, |contents|)
    }

    /** `MCFBUILD_StringStackInitialize`: no storage, both offsets 0. */
    constructor ()
      ensures Valid() && fresh(storage)
      ensures contents == [] && top == 0 && end == 0 && capacity == 0
    {
      storage := new byte[0];
      capacity := 0;
      top := 0;
      end := 0;
      contents := [];
      starts := [0];
    }

    /** `MCFBUILD_StringStackClear`: empties the stack, keeping the buffer. */
    method Clear()
      requires Valid()
      modifies this
      ensures Valid() && contents == [] && top == 0 && end == 0
      ensures storage == old(storage) && capacity == old(capacity)
    {
      top := 0;
      end := 0;
      contents := [];
      starts := [0];
    }

    /** `MCFBUILD_StringStackGetTop`: on an empty stack, fails with
        `ERROR_NO_MORE_ITEMS`; otherwise yields the newest string and its
        length, recovered from the offsets and the header's padding, and the
        string is NUL-terminated in the buffer. Nothing changes. */
    method GetTop() returns (r: Outcome<nat>, str: seq<wchar>, length: nat)
      requires Valid()
      ensures r.Pass? <==> contents != []
      ensures r.Fail? ==> r.error == ERROR_NO_MORE_ITEMS
      ensures r.Pass? ==> str == contents[|contents| - 1] && length == |str|
      ensures r.Pass? ==>
        var nul := top + HEADER_SIZE + WCHAR_SIZE * length;
        nul + WCHAR_SIZE <= storage.Length && storage[nul] == 0 && storage[nul + 1] == 0
    {
      TopBelowEnd(storage[..], contents, starts);
      if top == end {
        return Fail(ERROR_NO_MORE_ITEMS), [], 0;
      }
      var buf := storage[..];
      ghost var newest := contents[|contents| - 1];
      TopFields(buf, contents, starts, top, end);
      var element := DecodeLE(buf[top..top + HEADER_SIZE]);
      var stringSize := end - top - element % 8 - HEADER_SIZE - WCHAR_SIZE;
      length := stringSize / WCHAR_SIZE;
      assert length == |newest|;
      str := ReadUnits(buf[top + HEADER_SIZE..top + HEADER_SIZE + WCHAR_SIZE * length], length);
      assert str == newest;
      r := Pass;
    }

    /** `MCFBUILD_StringStackPop`: on an empty stack, fails with
        `ERROR_NO_MORE_ITEMS` and changes nothing; otherwise `end` drops to
        the old top and `top` follows the header's link back to the record
        before, so the newest string is gone. */
    method Pop() returns (r: Outcome<nat>)
      requires Valid()
      modifies this
      ensures Valid() && storage == old(storage) && capacity == old(capacity)
      ensures r.Pass? <==> old(contents) != []
      ensures r.Fail? ==>
        r.error == ERROR_NO_MORE_ITEMS && contents == old(contents) && top == old(top) && end == old(end)
      ensures r.Pass? ==> contents == old(contents)[..|old(contents)| - 1] && end == old(top)
      ensures r.Pass? ==> starts == old(starts)[..|old(starts)| - 1]
      ensures r.Pass? ==> top == PrevStart(old(starts), |old(contents)| - 1)
    {
      TopBelowEnd(storage[..], contents, starts);
      if top == end {
        return Fail(ERROR_NO_MORE_ITEMS);
      }
      TopFields(storage[..], contents, starts, top, end);
      PopLayout(storage[..], contents, starts);
      var element := DecodeLE(storage[top..top + HEADER_SIZE]);
      end := top;
      top := (element / 8) * 8;
      contents := contents[..|contents| - 1];
      starts := starts[..|starts| - 1];
      r := Pass;
    }

    /** `MCFBUILD_StringStackPush`: appends a record for `s` at `end`. The
        record size itself is not checked against `size_t` overflow (a string
        in memory cannot be that long, which the precondition states); only
        the final sum `end + size` is. A buffer too small is grown to `GrownCapacity`,
        where `allocOk` says whether the reallocation succeeds. Either failure
        reports `ERROR_NOT_ENOUGH_MEMORY` and changes nothing. On success the
        new record's link is the old top, `top` becomes the old `end` and
        `end` grows by the record size. */
    method Push(s: seq<wchar>, allocOk: bool) returns (r: Outcome<nat>)
      requires Valid() && RecordSize(|s|) <= SIZE_MAX
      modifies this, storage
      ensures Valid() && (storage == old(storage) || fresh(storage))
      ensures var need := old(end) + RecordSize(|s|);
        r.Pass? <==> need <= SIZE_MAX && (need <= old(capacity) || allocOk)
      ensures r.Fail? ==>
        && r.error == ERROR_NOT_ENOUGH_MEMORY
        && contents == old(contents) && top == old(top) && end == old(end)
        && capacity == old(capacity) && storage == old(storage) && storage[..] == old(storage[..])
      ensures r.Pass? ==>
        contents == old(contents) + [s] && top == old(end) && end == old(end) + RecordSize(|s|)
      ensures r.Pass? ==> starts == old(starts) + [end]
      ensures r.Fail? ==> starts == old(starts)
      ensures r.Pass? && old(capacity) < end ==> capacity == GrownCapacity(old(capacity), end)
      ensures r.Pass? && old(capacity) >= end ==> capacity == old(capacity)
    {
      var sizeToAdd := UnpaddedSize(|s|);
      var sizeToPad := Padding(|s|);
      sizeToAdd := sizeToAdd + sizeToPad;
      if end + sizeToAdd > SIZE_MAX {
        return Fail(ERROR_NOT_ENOUGH_MEMORY);
      }
      var minimumSizeToReserve := end + sizeToAdd;
      var reserved := Reserve(minimumSizeToReserve, allocOk);
      if !reserved {
        return Fail(ERROR_NOT_ENOUGH_MEMORY);
      }
      Place(s);
      r := Pass;
    }

    /** The growth step of `Push`: a buffer smaller than `minimum` is
        reallocated to `GrownCapacity`, which fails exactly when the
        allocation does, leaving everything as it was. */
    method Reserve(minimum: size_t, allocOk: bool) returns (ok: bool)
      requires Valid()
      modifies this
      ensures Valid() && contents == old(contents) && starts == old(starts) && top == old(top) && end == old(end)
      ensures ok <==> minimum <= old(capacity) || allocOk
      ensures ok ==> minimum <= capacity
      ensures !ok ==> capacity == old(capacity) && storage == old(storage)
      ensures ok ==> capacity == if old(capacity) < minimum then GrownCapacity(old(capacity), minimum) else old(capacity)
      ensures ok && old(capacity) < minimum ==> fresh(storage)
      ensures old(capacity) >= minimum ==> storage == old(storage)
    {
      if capacity < minimum {
        var newCapacity := GrownCapacity(capacity, minimum);
        if !allocOk {
          return false;
        }
        Reallocate(newCapacity);
      }
      ok := true;
    }

    /** `MCFBUILD_HeapRealloc` that succeeds: a larger buffer holding the old
        bytes, so the records are intact. */
    method Reallocate(newCapacity: size_t)
      requires Valid() && capacity <= newCapacity
      modifies this
      ensures Valid() && fresh(storage) && capacity == newCapacity
      ensures contents == old(contents) && starts == old(starts) && top == old(top) && end == old(end)
    {
      ghost var before := storage[..];
      var grown := new byte[newCapacity];
      forall i | 0 <= i < capacity {
        grown[i] := storage[i];
      }
      assert grown[..end] == before[..end];
      LayoutFrame(before, grown[..], contents, starts);
      storage := grown;
      capacity := newCapacity;
    }

    /** The second half of `Push`, once the buffer is large enough: the
        record of `s` is written at `end` (the field stores and the
        `wmemcpy`), linked to the old top, and becomes the new top. */
    method Place(s: seq<wchar>)
      requires Valid() && end + RecordSize(|s|) <= storage.Length
      modifies this, storage
      ensures Valid() && storage == old(storage) && capacity == old(capacity)
      ensures contents == old(contents) + [s] && starts == old(starts) + [end]
      ensures top == old(end) && end == old(end) + RecordSize(|s|)
    {
      WriteRecord(s);
      ghost var buf := storage[..];
      ghost var contents', starts' := contents + [s], starts + [end + RecordSize(|s|)];
      PushLayout(buf, contents, starts, s, contents', starts');
      top, end := end, end + RecordSize(|s|);
      contents, starts := contents', starts';
      assert storage[..] == buf;
    }

    /** The bytes of the record of `s`, linked to `top`, are written at
        `end`, past the records, which stay intact. */
    method WriteRecord(s: seq<wchar>)
      requires Valid() && end + UnpaddedSize(|s|) <= storage.Length
      modifies storage
      ensures Valid() && RecordAt(storage[..], end, top, s)
    {
      ghost var before := storage[..];
      TopBelowEnd(before, contents, starts);
      var record := RecordBytes(s, top);
      forall k | 0 <= k < |record| {
        storage[end + k] := record[k];
      }
      assert storage[..end] == before[..end];
      LayoutFrame(before, storage[..], contents, starts);
      assert storage[..][end..end + |record|] == record;
      WrittenRecord(storage[..], end, top, s);
    }
  }

  /** A push that succeeds, followed by a pop, gives back the stack as it
      was: the same strings, the same record offsets, and `top` and `end` at
      their old values, since the new record's link is the old top. A push
      that fails leaves the stack as it was and nothing is popped. */
  method PushThenPop(st: StringStack, s: seq<wchar>, allocOk: bool) returns (pushed: Outcome<nat>, popped: Outcome<nat>)
    requires st.Valid() && RecordSize(|s|) <= SIZE_MAX
    modifies st, st.storage
    ensures st.Valid()
    ensures pushed.Pass? ==> popped.Pass?
    ensures st.contents == old(st.contents) && st.starts == old(st.starts)
    ensures st.top == old(st.top) && st.end == old(st.end)
  {
    pushed := st.Push(s, allocOk);
    if pushed.Fail? {
      popped := pushed;
      return;
    }
    popped := st.Pop();
    assert st.starts == old(st.starts);
  }

  /** Two pushes, a look at the top, a pop and another look: the stack hands
      the strings back last in, first out, and `top` and `end` return to
      their values before the second push. */
  method PushPopScenario(a: seq<wchar>, b: seq<wchar>) returns (first: seq<wchar>, second: seq<wchar>)
    requires RecordSize(|a|) + RecordSize(|b|) <= SIZE_MAX
    ensures first == b && second == a
  {
    var st := new StringStack();
    var r := st.Push(a, true);
    assert r.Pass?;
    var topA, endA := st.top, st.end;
    r := st.Push(b, true);
    assert r.Pass?;
    var length;
    r, first, length := st.GetTop();
    r := st.Pop();
    assert st.contents == [a];
    assert st.top == topA && st.end == endA;
    r, second, length := st.GetTop();
  }
}
