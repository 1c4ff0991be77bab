# MCF core containers and smart pointers in Dafny

This project models six small, stateful components of the MCF C++/C runtime library and proves what each one promises.

- **`IntrusivePtr` / `IntrusiveWeakPtr`** (module `IntrusivePtr`). This is intrusive strong/weak reference counting.
  - Every object deriving from `DeletableBase` carries a `RefCountBase` counter and a lazily published weak view (`WeakViewTemplate`). The view has its own counter and a back-pointer to its owner.
  - One `Heap` class holds every counted block and every strong and weak handle variable. Each atomic operation is one step.
  - The invariant `Valid` says that:
    - each object's counter equals the number of strong handles holding it plus the references owning raw pointers hold;
    - each view's counter equals its weak handles, plus its owning raw pointers, plus the owner's hold while the owner lives;
    - views and owners are linked both ways;
    - the deleter never runs twice on one object.
- **`VarChar<N>`** (module `VarChar`). This is an inline string of at most `N < 256` chars. The length is stored as its complement in the last byte of the buffer.
- **`StaticVector<T, N>`** (module `StaticVector`). This is a fixed-capacity vector.
  - It checks capacity before constructing anything.
  - When an element constructor throws, it pops exactly the elements it had pushed.
- **The MCFBuild string stack** (module `StringStack`). This is a stack of wide strings packed into one growable byte buffer.
  - Each record is an 8-byte header followed by the string's UTF-16 units and a NUL, padded to 8 bytes.
  - The header packs the padding (3 bits) and a link to the previous record (61 bits).
- **The intrusive AVL tree's lookups and insertion-slot choice** (module `AvlTree`). The tree is a value. A node is named by its position in the in-order (`pPrev`/`pNext`) sequence.
- **`UniqueHandle<Closer>`** (module `UniqueHandle`). This is a single-owner scalar handle with a sentinel "null" value. The closer's calls are recorded in order.

The module `Machine` holds the 64-bit Windows scalar widths (`size_t`, `wchar_t`, `unsigned char`), the Win32 error codes, and `Option`, `Outcome` and `Result`.

Modelling choices:
- Exceptions become `Outcome`/`Result` values.
- `DEBUG_THROW`/`MCF_THROW` are taken to throw in every build.
- `Impl_CheckedSizeArithmetic::Add` is taken to throw `bad_array_new_length` on `size_t` overflow, like `ResizeMore` in `VarChar`.
- Debug-only checks (`ASSERT`, `MCF_DEBUG_CHECK`) become preconditions.
- `MCFBUILD_HeapRealloc` success is a parameter (`allocOk`).
- An element constructor's outcome is a parameter (`Construction<T>`, `None` when it throws).

## Model

| member | source | states |
|---|---|---|
| IntrusivePtr.Heap.AddRef | MCF/src/SmartPointers/IntrusivePtr.hpp:73-77 | needs a positive counter; raises exactly that counter by one and changes nothing else |
| IntrusivePtr.Heap.TryAddRef | MCF/src/SmartPointers/IntrusivePtr.hpp:62-72 | succeeds iff the counter is not zero; on success the counter rises by one, on failure nothing changes (a zero counter is never raised) |
| IntrusivePtr.Heap.DropRef | MCF/src/SmartPointers/IntrusivePtr.hpp:78-82 | needs a positive counter; lowers it by one and reports true iff it was the last reference |
| IntrusivePtr.Heap.NewObject | MCF/src/SmartPointers/IntrusivePtr.hpp:38-41 | a new object is a fresh block with counter 1 and no view, and its one reference is owned by the raw pointer `new` returned |
| IntrusivePtr.Heap.CopyObject | MCF/src/SmartPointers/IntrusivePtr.hpp:42-45 | copying an object gives the copy a counter of its own starting at 1 and no view; the original is untouched |
| IntrusivePtr.Heap.GetView | MCF/src/SmartPointers/IntrusivePtr.hpp:165-168 | yields the object's published view, which is a live view whose owner is that object |
| IntrusivePtr.Heap.RequireView | MCF/src/SmartPointers/IntrusivePtr.hpp:169-180 | an existing view is returned unchanged; otherwise a new view with counter 1 (the owner's hold) and owner = the object is published, so every later call returns that one view |
| IntrusivePtr.Heap.ReserveWeak | MCF/src/SmartPointers/IntrusivePtr.hpp:183-185 | afterwards the object has a view, created as by `X_RequireView` |
| IntrusivePtr.Heap.IsOwnerAlive | MCF/src/SmartPointers/IntrusivePtr.hpp:112-122 | true iff the owner pointer is set, which under the invariant holds iff a live object publishes the view |
| IntrusivePtr.Heap.ClearOwner | MCF/src/SmartPointers/IntrusivePtr.hpp:123-126 | nulls the view's owner and changes nothing else |
| IntrusivePtr.Heap.DeleteView | MCF/src/SmartPointers/IntrusivePtr.hpp:193 | frees a view whose counter reached zero |
| IntrusivePtr.Heap.DeleteObject | MCF/src/SmartPointers/IntrusivePtr.hpp:189-198 | the deleter on a dead object drops its hold on the view, deleting the view at zero and clearing its owner otherwise, frees the object and records it as deleted |
| IntrusivePtr.Heap.Construct | MCF/src/SmartPointers/IntrusivePtr.hpp:292-295 | a new strong handle adopts the reference its raw pointer owned, leaving every counter as it was |
| IntrusivePtr.Heap.Release | MCF/src/SmartPointers/IntrusivePtr.hpp:381-383 | the handle becomes null and the caller owns its reference; no counter changes |
| IntrusivePtr.Heap.ForkRef | MCF/src/SmartPointers/IntrusivePtr.hpp:279-285 | one more reference to the handle's object (none for null), owned by the caller |
| IntrusivePtr.Heap.Copy | MCF/src/SmartPointers/IntrusivePtr.hpp:323-326 | a copied handle shares the object and its counter rises by exactly one |
| IntrusivePtr.Heap.Move | MCF/src/SmartPointers/IntrusivePtr.hpp:327-330 | the reference passes to the new handle, the source becomes null and no counter changes |
| IntrusivePtr.Heap.Destroy | MCF/src/SmartPointers/IntrusivePtr.hpp:337-347 | the handle's reference is dropped; the deleter runs exactly when it was the last one, and the deleted object is recorded once |
| IntrusivePtr.Heap.Swap | MCF/src/SmartPointers/IntrusivePtr.hpp:417-420 | exchanges the two handles' objects; no counter changes |
| IntrusivePtr.Heap.Reset | MCF/src/SmartPointers/IntrusivePtr.hpp:385-388 | the handle becomes null and its old reference is dropped as by the destructor |
| IntrusivePtr.Heap.ResetTo | MCF/src/SmartPointers/IntrusivePtr.hpp:389-397 | the handle adopts the caller's reference and drops its old one |
| IntrusivePtr.Heap.ResetCopy | MCF/src/SmartPointers/IntrusivePtr.hpp:408-411 | copy assignment takes one more reference to the source's object before dropping the old one, so self-assignment changes nothing |
| IntrusivePtr.Heap.ResetMove | MCF/src/SmartPointers/IntrusivePtr.hpp:412-415 | move assignment takes over the source's reference, nulls the source and drops the old one; moving into itself changes nothing |
| IntrusivePtr.Heap.IsNull | MCF/src/SmartPointers/IntrusivePtr.hpp:350-352 | true iff the handle holds no object |
| IntrusivePtr.Heap.Get | MCF/src/SmartPointers/IntrusivePtr.hpp:378-380 | a non-null result is a live object with a positive counter |
| IntrusivePtr.Heap.IsUnique | MCF/src/SmartPointers/IntrusivePtr.hpp:353-359 | false for null, else true iff the counter is 1; then no other handle and no raw pointer holds the object |
| IntrusivePtr.Heap.GetRef | MCF/src/SmartPointers/IntrusivePtr.hpp:360-366 | 0 for null, else the counter, which equals the strong handles holding the object plus its owning raw pointers |
| IntrusivePtr.Heap.GetWeakRef | MCF/src/SmartPointers/IntrusivePtr.hpp:367-377 | 0 without an object or a view, else the view's counter less the owner's hold, which equals the weak references to the view |
| IntrusivePtr.Heap.MakeIntrusive | MCF/src/SmartPointers/IntrusivePtr.hpp:524-530 | a new object with counter 1, held by a new handle as its only reference |
| IntrusivePtr.Heap.StaticPointerCast | MCF/src/SmartPointers/IntrusivePtr.hpp:532-537 | the by-value source passes its reference to the result; no counter changes |
| IntrusivePtr.Heap.DynamicPointerCast | MCF/src/SmartPointers/IntrusivePtr.hpp:538-545 | when the object converts, the reference passes to the result; otherwise the result is null and the by-value source drops its reference when it ends |
| IntrusivePtr.Heap.Share | MCF/src/SmartPointers/IntrusivePtr.hpp:206-214 | a new handle with one more reference to the object, or null (no counter change) when it does not convert |
| IntrusivePtr.Heap.LockOwner | MCF/src/SmartPointers/IntrusivePtr.hpp:128-139 | yields the owner with its counter one higher when the owner is set, converts and has a non-zero counter; otherwise null and nothing changes |
| IntrusivePtr.Heap.CreateViewFromElement | MCF/src/SmartPointers/IntrusivePtr.hpp:577-584 | null for null; else the object's view, created if needed, with one more reference owned by the caller |
| IntrusivePtr.Heap.ConstructWeak | MCF/src/SmartPointers/IntrusivePtr.hpp:596-606 | a new weak handle adopts the caller's weak reference; no counter changes |
| IntrusivePtr.Heap.WeakFromElement | MCF/src/SmartPointers/IntrusivePtr.hpp:607-610 | a new weak handle to the object's view, which gains one reference |
| IntrusivePtr.Heap.WeakFromPtr | MCF/src/SmartPointers/IntrusivePtr.hpp:611-619 | a weak handle to the view of a strong handle's object, or null for a null handle |
| IntrusivePtr.Heap.Weaken | MCF/src/SmartPointers/IntrusivePtr.hpp:215-222 | a weak handle to the object's view, or null when the object does not convert |
| IntrusivePtr.Heap.ForkView | MCF/src/SmartPointers/IntrusivePtr.hpp:585-591 | one more reference to the weak handle's view, owned by the caller |
| IntrusivePtr.Heap.ReleaseWeak | MCF/src/SmartPointers/IntrusivePtr.hpp:592-594 | the weak handle becomes null and the caller owns its reference |
| IntrusivePtr.Heap.CopyWeak | MCF/src/SmartPointers/IntrusivePtr.hpp:638-641 | a weak copy shares the view, whose counter rises by one |
| IntrusivePtr.Heap.MoveWeak | MCF/src/SmartPointers/IntrusivePtr.hpp:642-645 | a weak move nulls the source and changes no counter |
| IntrusivePtr.Heap.DestroyWeak | MCF/src/SmartPointers/IntrusivePtr.hpp:652-662 | the view's counter drops by one and the view is deleted exactly when it reaches zero |
| IntrusivePtr.Heap.SwapWeak | MCF/src/SmartPointers/IntrusivePtr.hpp:720-723 | exchanges the two weak handles' views; no counter changes |
| IntrusivePtr.Heap.ResetWeak | MCF/src/SmartPointers/IntrusivePtr.hpp:688-691 | the weak handle becomes null and drops its old reference |
| IntrusivePtr.Heap.ResetWeakTo | MCF/src/SmartPointers/IntrusivePtr.hpp:692-695 | the weak handle takes a reference to the object's view, then drops its old one |
| IntrusivePtr.Heap.ResetWeakFromPtr | MCF/src/SmartPointers/IntrusivePtr.hpp:696-700 | the same, for the object of a strong handle |
| IntrusivePtr.Heap.ResetWeakCopy | MCF/src/SmartPointers/IntrusivePtr.hpp:711-714 | weak copy assignment: one more reference to the source's view, then the old one dropped |
| IntrusivePtr.Heap.ResetWeakMove | MCF/src/SmartPointers/IntrusivePtr.hpp:715-718 | weak move assignment: the source's reference passes over and the old one is dropped; moving into itself changes nothing |
| IntrusivePtr.Heap.IsAlive | MCF/src/SmartPointers/IntrusivePtr.hpp:665-671 | true iff the handle has a view that a live object still publishes |
| IntrusivePtr.Heap.WeakGetWeakRef | MCF/src/SmartPointers/IntrusivePtr.hpp:672-678 | as written: 0 for null, else the view's counter less one, whether or not the owner still lives |
| IntrusivePtr.Heap.WeakRefCount | MCF/src/SmartPointers/IntrusivePtr.hpp:672-678 | as intended: the number of weak references to the view, equal to `GetWeakRef` while the owner lives |
| IntrusivePtr.Heap.Lock | MCF/src/SmartPointers/IntrusivePtr.hpp:679-686 | null for a null weak handle; otherwise a new strong handle holding exactly what `LockOwner` yields, to the object that publishes the view |
| IntrusivePtr.WeakRefAfterOwnerDies | MCF/src/SmartPointers/IntrusivePtr.hpp:672-678 | with one weak handle left after its object dies, `GetWeakRef` as written reports 0 although one weak reference exists |
| IntrusivePtr.ForkKeeps | MCF/src/SmartPointers/IntrusivePtr.hpp:73-77 | one more reference to a block, owned by a raw pointer, keeps every counter equal to its references |
| IntrusivePtr.DropStrongKeeps | MCF/src/SmartPointers/IntrusivePtr.hpp:337-347 | ending a strong handle keeps the invariant: the counter loses exactly that reference, and at zero the deleter's effects leave a consistent heap |
| IntrusivePtr.DropOneKeeps | MCF/src/SmartPointers/IntrusivePtr.hpp:78-82 | dropping a reference no handle holds keeps the invariant, running the deleter at zero |
| IntrusivePtr.DropLastKeeps | MCF/src/SmartPointers/IntrusivePtr.hpp:189-198 | the object whose last reference ended can be deleted, and deleting it keeps the invariant |
| IntrusivePtr.DropWeakKeeps | MCF/src/SmartPointers/IntrusivePtr.hpp:652-662 | ending a weak handle keeps the invariant; a view is freed only when its counter reaches zero |
| IntrusivePtr.FreedKeeps | MCF/src/SmartPointers/IntrusivePtr.hpp:189-198 | the teardown of a dead object (drop its hold on the view, delete or orphan the view) keeps views, owners and counters consistent |
| IntrusivePtr.RetiredDrop | MCF/src/SmartPointers/IntrusivePtr.hpp:342-345 | the deleter fires only on an object that was live and is gone afterwards, so no object is deleted twice |
| IntrusivePtr.CounterIsHandles | MCF/src/SmartPointers/IntrusivePtr.hpp:33-83 | with no raw pointer owning a reference, an object's counter is the number of strong handles and a view's the number of weak handles plus the owner's hold |
| IntrusivePtr.LockFailsIffDead | MCF/src/SmartPointers/IntrusivePtr.hpp:128-139 | `LockOwner` yields null exactly when the owner is gone or does not convert |
| IntrusivePtr.BumpSpend | MCF/src/SmartPointers/IntrusivePtr.hpp:292-295 | a reference handed out and then adopted by a handle leaves the raw-pointer tally unchanged |
| IntrusivePtr.Cast | MCF/src/SmartPointers/IntrusivePtr.hpp:85-97 | a conversion yields either null or the same object |
| IntrusivePtr.Lockable | MCF/src/SmartPointers/IntrusivePtr.hpp:128-139 | a non-null result is the view's owner, a live block |
| VarChar.SizeRoundTrip | MCF/Core/VarChar.hpp:207-209 | the size decoded from the length byte is the size stored by `Resize` |
| VarChar.LengthByteRoundTrip | MCF/Core/VarChar.hpp:207-209 | every length byte up to the capacity encodes a size up to the capacity, and it is 0 exactly when the string is full |
| VarChar.ReversedInvolution | MCF/Core/VarChar.hpp:365-374 | reversing twice gives back the original |
| VarChar.VarChar.Size | MCF/Core/VarChar.hpp:207-209 | a length byte up to the capacity decodes to the size it encodes; a larger byte makes the `unsigned` subtraction wrap to 2^32 minus the excess |
| VarChar.VarChar.IsEmpty | MCF/Core/VarChar.hpp:77-79 | true exactly when there are no chars, that is, when the length byte holds the capacity |
| VarChar.VarChar.Contents | MCF/Core/VarChar.hpp:258-260 | the string's chars are as many as its size, which never exceeds the capacity |
| VarChar.VarChar.constructor | MCF/Core/VarChar.hpp:39-41 | a default-constructed string stores the capacity in its length byte and is empty |
| VarChar.VarChar.Get | MCF/Core/VarChar.hpp:235-246 | throws `ERROR_ACCESS_DENIED` iff the index is not below the size, else yields that char |
| VarChar.VarChar.Resize | MCF/Core/VarChar.hpp:266-271 | over the capacity throws `ERROR_OUTOFMEMORY` and changes nothing; otherwise the size becomes exactly `n` and the char bytes are untouched |
| VarChar.VarChar.ResizeMore | MCF/Core/VarChar.hpp:272-280 | a wrapping sum throws `bad_array_new_length`, a sum over the capacity `ERROR_OUTOFMEMORY`; otherwise grows by `delta` and yields the old size as the write offset |
| VarChar.VarChar.GetStr | MCF/Core/VarChar.hpp:220-227 | writes NUL at index size and changes neither size nor contents; for a full string that is the length byte, already 0 |
| VarChar.VarChar.Fill | MCF/Core/VarChar.hpp:291 | `FillN` writes `count` copies of the char and nothing else |
| VarChar.VarChar.CopyIn | MCF/Core/VarChar.hpp:304 | `Copy` writes the source chars at the offset and nothing else |
| VarChar.VarChar.AssignFill | MCF/Core/VarChar.hpp:289-292 | succeeds iff `n` fits, and then the contents are `n` copies of the char |
| VarChar.VarChar.Assign | MCF/Core/VarChar.hpp:302-305 | for a view outside the string's own chars: succeeds iff the view fits, and then the contents equal the view |
| VarChar.VarChar.CopyDown | MCF/Core/VarChar.hpp:304 | a front-to-back copy of `n` chars from offset `from` down to the start moves the old chars intact and leaves the bytes from `n` on untouched |
| VarChar.VarChar.AssignOwnSliceAsWritten | MCF/Core/VarChar.hpp:302-305 | as written, for a view of the string's own chars `[from, from + n)`: the size becomes `n`; when `0 < from <= n` the char at position `n - from` is the NUL that `GetStr` wrote, else the contents are the view |
| VarChar.VarChar.AssignOwnSlice | MCF/Core/VarChar.hpp:302-305 | as intended, for a view of the string's own chars: the size becomes `n` and the contents are exactly the view |
| VarChar.VarChar.AssignFrom | MCF/Core/VarChar.hpp:309-313 | self-assignment changes nothing; otherwise the contents become the other string's |
| VarChar.VarChar.AppendFill | MCF/Core/VarChar.hpp:338-340 | succeeds iff the new size fits; then the contents are the old ones followed by `n` copies of the char; on failure it throws `bad_array_new_length` when the size_t sum wraps, otherwise `ERROR_OUTOFMEMORY`, and nothing changes |
| VarChar.VarChar.Append | MCF/Core/VarChar.hpp:350-353 | succeeds iff the new size fits; then the contents are the old ones followed by the view; on failure it throws `bad_array_new_length` when the size_t sum wraps, otherwise `ERROR_OUTOFMEMORY`, and nothing changes |
| VarChar.VarChar.Push | MCF/Core/VarChar.hpp:320-322 | succeeds iff the string is not full, then appends the char; a full string throws `ERROR_OUTOFMEMORY` and is unchanged |
| VarChar.VarChar.UncheckedPushAsWritten | MCF/Core/VarChar.hpp:323-329 | as written: the char is stored at index (capacity - size), then the length byte is decremented |
| VarChar.VarChar.UncheckedPush | MCF/Core/VarChar.hpp:323-329 | as intended: the char is appended at index size and the size grows by one |
| VarChar.VarChar.Pop | MCF/Core/VarChar.hpp:330-336 | needs `n` not above the size; the size drops by `n` and the remaining chars are untouched |
| VarChar.VarChar.Clear | MCF/Core/VarChar.hpp:80-82 | the string becomes empty and the char bytes are untouched |
| VarChar.VarChar.Reverse | MCF/Core/VarChar.hpp:365-374 | the contents become their reverse and the size is kept |
| VarChar.AssignOwnSliceOnAbcd | MCF/Core/VarChar.hpp:302-305 | assigning "abcd" its own chars 1..3 gives "bc" followed by NUL as written, and "bcd" as intended |
| VarChar.UncheckedPushOnEmpty | MCF/Core/VarChar.hpp:323-329 | pushing 'a' onto an empty `VarChar<8>` as written makes `GetSize` report 2^32 - 88 |
| VarChar.UncheckedPushOnEmptyIntended | MCF/Core/VarChar.hpp:323-329 | the intended push onto an empty string gives the one-char string "a" |
| StaticVector.Built | MCF.old/src/Containers/StaticVector.hpp:323-332 | the elements made by a run of successful constructions, one per construction, in order |
| StaticVector.Attempts | MCF.old/src/Containers/StaticVector.hpp:350-353 | the outcomes of the first `n` constructions, in order |
| StaticVector.FirstThrow | MCF.old/src/Containers/StaticVector.hpp:390-397 | the index of the first throwing construction; all before it succeed, and it equals the length iff none throws |
| StaticVector.ReserveMoreCheck | MCF.old/src/Containers/StaticVector.hpp:307-315 | passes iff size + delta fits the capacity; a wrapping sum throws `bad_array_new_length`, a sum over the capacity `ERROR_OUTOFMEMORY` |
| StaticVector.StaticVector.Contents | MCF.old/src/Containers/StaticVector.hpp:230-232 | the live elements are exactly `size` many |
| StaticVector.StaticVector.constructor | MCF.old/src/Containers/StaticVector.hpp:37-39 | a new vector is empty |
| StaticVector.StaticVector.CapacityRemaining | MCF.old/src/Containers/StaticVector.hpp:236-238 | size plus the remaining capacity is the capacity |
| StaticVector.StaticVector.Get | MCF.old/src/Containers/StaticVector.hpp:267-278 | throws `ERROR_ACCESS_DENIED` iff the index is not below the size, else yields that element |
| StaticVector.StaticVector.Reserve | MCF.old/src/Containers/StaticVector.hpp:307-311 | throws `ERROR_OUTOFMEMORY` iff the request exceeds the capacity |
| StaticVector.StaticVector.ReserveMore | MCF.old/src/Containers/StaticVector.hpp:312-315 | passes iff size + delta fits, with the sum overflow-checked |
| StaticVector.StaticVector.UncheckedPush | MCF.old/src/Containers/StaticVector.hpp:322-332 | needs a free slot; a successful construction appends the element at index size, a throwing one changes nothing |
| StaticVector.StaticVector.Push | MCF.old/src/Containers/StaticVector.hpp:317-321 | on a full vector throws `ERROR_OUTOFMEMORY` and keeps the elements; otherwise appends iff the construction succeeds |
| StaticVector.StaticVector.Pop | MCF.old/src/Containers/StaticVector.hpp:333-342 | needs `n` not above the size; the last `n` elements go and the rest are unchanged |
| StaticVector.StaticVector.Clear | MCF.old/src/Containers/StaticVector.hpp:86-88 | the vector becomes empty |
| StaticVector.StaticVector.AppendN | MCF.old/src/Containers/StaticVector.hpp:344-358 | reserves first, so a request over the capacity appends nothing; succeeds iff it fits and every construction succeeds, appending the built elements in order; a throw pops exactly what was pushed and rethrows the constructor's exception |
| StaticVector.StaticVector.AppendRange | MCF.old/src/Containers/StaticVector.hpp:377-402 | forward ranges reserve the distance up front, input ranges push one by one; either way success appends all the elements and a failure restores the old contents, and the error is the one the first failing step raises |
| StaticVector.StaticVector.Resize | MCF.old/src/Containers/StaticVector.hpp:290-299 | shrinking pops down to `n`; growing appends, throwing `ERROR_OUTOFMEMORY` past the capacity and otherwise the constructor's exception; on success the size is exactly `n`, on failure the contents are unchanged |
| StaticVector.StaticVector.ResizeMore | MCF.old/src/Containers/StaticVector.hpp:300-305 | appends `delta` elements and yields the old end as the offset of the first new one; fails with `ReserveMore`'s error past the capacity and otherwise with the constructor's exception, leaving the contents unchanged |
| StaticVector.PushSixIntoFive | Projects/Test/main.cpp:7-13 | six pushes into a `StaticVector<int, 5>`: the sixth throws `ERROR_OUTOFMEMORY` and elements 0..4 are kept in order |
| StringStack.DecodeEncodeLE | MCFBuild/string_stack.c:9-13 | a header word stored in its 8 little-endian bytes reads back as itself |
| StringStack.Padding | MCFBuild/string_stack.c:53 | the padding is below 8 and brings the record to a multiple of 8 |
| StringStack.RecordSize | MCFBuild/string_stack.c:52-54 | a record's size is a multiple of 8 between the unpadded size (header, units, NUL) and 7 bytes more |
| StringStack.HeaderFields | MCFBuild/string_stack.c:83-84 | the header keeps the padding in its low 3 bits and the previous top, in words, in the rest, and fits in a `size_t` |
| StringStack.UnitBytes | MCFBuild/string_stack.c:85 | each `wchar_t` unit occupies two bytes |
| StringStack.ReadUnitBytes | MCFBuild/string_stack.c:85 | the units copied by `wmemcpy` read back as the string |
| StringStack.WrittenRecord | MCFBuild/string_stack.c:82-85 | the header, units and NUL `Push` writes form a record that reads back as written |
| StringStack.RecordRead | MCFBuild/string_stack.c:43-46 | reading a record yields its padding, its link to the previous top, its string and its NUL |
| StringStack.TopBelowEnd | MCFBuild/string_stack.c:32 | the newest record starts below the end, so `top == end` exactly when the stack is empty |
| StringStack.TopFields | MCFBuild/string_stack.c:43-46 | the length `GetTop` computes from the offsets and padding is the newest string's, and the link is the previous top |
| StringStack.PushLayout | MCFBuild/string_stack.c:82-87 | a record placed at the end and linked to the top extends the stack by one string |
| StringStack.PopLayout | MCFBuild/string_stack.c:106-108 | dropping the newest record leaves the records below it intact |
| StringStack.BitOrBounds | MCFBuild/string_stack.c:66-67 | an OR is at least each operand and stays within the type's width |
| StringStack.GrownCapacity | MCFBuild/string_stack.c:62-67 | the grown capacity is at least the required minimum and at least 0x400 |
| StringStack.StringStack.constructor | MCFBuild/string_stack.c:15-20 | no storage, both offsets 0, no strings |
| StringStack.StringStack.Clear | MCFBuild/string_stack.c:25-28 | empties the stack with top == end == 0, keeping the buffer |
| StringStack.StringStack.GetTop | MCFBuild/string_stack.c:29-48 | fails with `ERROR_NO_MORE_ITEMS` iff empty; otherwise yields the newest string, its length, and a NUL after it in the buffer; nothing changes |
| StringStack.StringStack.Pop | MCFBuild/string_stack.c:93-110 | fails with `ERROR_NO_MORE_ITEMS` and changes nothing iff empty; otherwise removes the newest string and its offset, `end` becomes the old top, and `top` becomes the start of the record below (0 when none is left) |
| StringStack.StringStack.Push | MCFBuild/string_stack.c:49-89 | fails with `ERROR_NOT_ENOUGH_MEMORY` and changes nothing iff end + size overflows or the reallocation fails; otherwise pushes the string, appends the new end to the record offsets, top := old end, end := old end + record size, and a grown capacity is `GrownCapacity` |
| StringStack.StringStack.Reserve | MCFBuild/string_stack.c:60-75 | a buffer at least the minimum is kept; a smaller one is reallocated to `GrownCapacity`, failing only when the allocation fails |
| StringStack.StringStack.Reallocate | MCFBuild/string_stack.c:68-74 | a successful realloc keeps the records and grows the buffer |
| StringStack.StringStack.Place | MCFBuild/string_stack.c:82-87 | writes the record at the end, makes it the top and appends the new end to the record offsets |
| StringStack.StringStack.WriteRecord | MCFBuild/string_stack.c:82-85 | the record's header, units and NUL are written at the end, linked to the top |
| StringStack.PushThenPop | MCFBuild/string_stack.c:49-110 | on any valid stack, a successful push followed by a pop succeeds and gives back the same strings, record offsets, `top` and `end` |
| StringStack.PushPopScenario | MCFBuild/string_stack.c:49-110 | after pushing a then b, `GetTop` yields b; after a pop it yields a |
| AvlTree.Inorder | MCFCRT/env/avl_tree.h:17-21 | the in-order sequence has one key per node |
| AvlTree.FirstNotLess | MCFCRT/env/avl_tree.h:129-143 | the first in-order position whose key is not less than `k` |
| AvlTree.FirstGreater | MCFCRT/env/avl_tree.h:145-159 | the first in-order position whose key is greater than `k` |
| AvlTree.LowerBoundInOrder | MCFCRT/env/avl_tree.h:129-143 | on an ordered tree, the descent finds the first node not less than the key |
| AvlTree.LowerBound | MCFCRT/env/avl_tree.h:129-143 | returns the first in-order node not less than the key, or null |
| AvlTree.UpperBoundInOrder | MCFCRT/env/avl_tree.h:145-159 | on an ordered tree, the descent finds the first node greater than the key |
| AvlTree.UpperBound | MCFCRT/env/avl_tree.h:145-159 | returns the first in-order node greater than the key, or null |
| AvlTree.FindInOrder | MCFCRT/env/avl_tree.h:161-177 | on an ordered tree the search stops at a node equal to the key, and at null iff none exists |
| AvlTree.Find | MCFCRT/env/avl_tree.h:161-177 | returns a node equal to the key, and null iff none exists |
| AvlTree.SpineRangeEqual | MCFCRT/env/avl_tree.h:179-209 | as written, `begin` is null iff no key matches, and otherwise compares equal, and `end` is the successor of a node that compares equal |
| AvlTree.EqualRangeAsWritten | MCFCRT/env/avl_tree.h:179-209 | the result of the two spine walks below `Find`'s node |
| AvlTree.SpineRangeMissesEqual | MCFCRT/env/avl_tree.h:189-197 | on a valid AVL tree with keys 1,3,5,5,5,5, the walk for 5 begins at position 3 although the equal keys begin at position 2 |
| AvlTree.EqualBracket | MCFCRT/env/avl_tree.h:179-209 | in a sorted sequence the keys equal to `k` are exactly those from the lower bound up to the upper bound |
| AvlTree.EqualRange | MCFCRT/env/avl_tree.h:179-209 | as intended: null twice when no key matches, else the lower and upper bounds, which bracket exactly the equal nodes |
| AvlTree.SlotInEmpty | MCFCRT/env/avl_tree.h:101-116 | the descent from the root ends in an empty child slot |
| AvlTree.SlotInPoint | MCFCRT/env/avl_tree.h:101-116 | that slot places the new node after every key not greater than it, so equal keys go to the right of existing ones |
| AvlTree.GraftInorder | MCFCRT/env/avl_tree.h:116 | linking a leaf into an empty slot inserts its key at the slot's in-order position |
| AvlTree.HintBetween | MCFCRT/env/avl_tree.h:62-98 | with prev <= node < hint (or hint <= node < next), of the two neighbours the one with the lower subtree has the empty slot, and it is the correct position |
| AvlTree.LinkInorder | MCFCRT/env/avl_tree.h:116 | linking through an empty slot inserts the key at the slot's position and leaves the other keys in order |
| AvlTree.AttachWithHint | MCFCRT/env/avl_tree.h:45-117 | the chosen slot is empty and puts the node after every key not greater than it, so the tree stays ordered; without a hint it is the root descent's slot |
| AvlTree.DescendFromRoot | MCFCRT/env/avl_tree.h:101-115 | the loop descends left when node < cur and right otherwise, ending in the empty slot of the root descent |
| AvlTree.Attach | MCFCRT/env/avl_tree.h:119-123 | `AttachWithHint` without a hint: the root descent's slot |
| UniqueHandle.Closer.Close | MCF/Core/UniqueHandle.hpp:63 | the closer records each handle it closes, in order |
| UniqueHandle.UniqueHandle.IsGood | MCF/Core/UniqueHandle.hpp:50-52 | true exactly when the held handle is not the sentinel, the condition under which `Reset`, `ResetFrom` and the destructor call the closer |
| UniqueHandle.UniqueHandle.Empty | MCF/Core/UniqueHandle.hpp:26-29 | the default handle holds the sentinel and `IsGood` is false |
| UniqueHandle.UniqueHandle.constructor | MCF/Core/UniqueHandle.hpp:30-33 | adopts the handle without closing anything; good iff it is not the sentinel |
| UniqueHandle.UniqueHandle.Move | MCF/Core/UniqueHandle.hpp:34-37 | the move constructor takes the other's handle and leaves it holding the sentinel |
| UniqueHandle.UniqueHandle.Release | MCF/Core/UniqueHandle.hpp:56-58 | returns the held handle, leaves the sentinel and closes nothing |
| UniqueHandle.UniqueHandle.Reset | MCF/Core/UniqueHandle.hpp:60-65 | stores the new handle and closes the old one exactly once iff it was not the sentinel |
| UniqueHandle.UniqueHandle.ResetFrom | MCF/Core/UniqueHandle.hpp:66-70 | on itself a no-op; otherwise takes the other's handle, leaves it at the sentinel, and closes the old one iff not the sentinel |
| UniqueHandle.UniqueHandle.Swap | MCF/Core/UniqueHandle.hpp:72-74 | exchanges the two handles and closes nothing |
| UniqueHandle.UniqueHandle.Destroy | MCF/Core/UniqueHandle.hpp:42-44 | the destructor closes the held handle iff it is not the sentinel |
| UniqueHandle.HandleLifecycle | MCF/Core/UniqueHandle.hpp:34-74 | through moves, swaps, a release and the destructors, each adopted handle is closed exactly once and the sentinel never |

## Left out

- Concurrency in `IntrusivePtr.hpp` is not modelled: memory orders, the weak view's `Mutex`, and interleavings. Each atomic operation is one sequential step.
- IntrusivePtr.Heap.TryAddRef: the compare-and-swap retry loop is collapsed to its first iteration. Sequentially the first exchange always succeeds.
- IntrusivePtr.Heap.RequireView: the losing side of the publication race (allocate a view, lose the compare-and-swap, delete it) is not modelled. Sequentially there is always exactly one view per object.
- IntrusivePtr.Heap.AddRef: the counters are unbounded naturals. `size_t` wrap-around of a counter is not modelled, because it needs 2^64 live references.
- `RefCountBase`/`DeletableBase` copy assignment (IntrusivePtr.hpp:46-48, 159-161) is not modelled. It leaves the counter and the view untouched, so it is a no-op on the heap.
- `~RefCountBase`'s `Bail` on a shared object (IntrusivePtr.hpp:49-53) is not modelled. In the model the deleter only ever runs at a zero counter, so the bail is unreachable.
- The cv-qualified duplicates of `Share` and `Weaken` are left out; they differ only in qualifiers.
- `ConstPointerCast` is modelled by `IntrusivePtr.Heap.StaticPointerCast`; the two differ only in the C++ type.
- `dynamic_cast` is an abstract set of target types per object (`Conversion`). The compile-time choice between static and dynamic conversion is the caller's `Conversion` argument.
- Deleters are not modelled: the deleter is `delete`, recorded in `deleted`. Raw owning pointers are a ghost tally (`raw`) rather than values.
- Not modelled:
  - the `UniquePtr` interoperation;
  - the pointer comparison operators (IntrusivePtr.hpp:441-517, 725-749);
  - `operator*`/`operator->`.
- The following `VarChar` operations are not part of this model, because they delegate to `StringView` or `Array`, whose code is not shown:
  - `Compare`, `Find*`, `Slice`/`SliceStr`;
  - the enumerators and the `GetFirst`/`GetLast`/`GetPrev`/`GetNext` navigation;
  - `Swap`.
- VarChar.VarChar.Assign: holds for views that do not alias the string's own chars. A view into the string's own buffer is modelled separately, as offsets, by `VarChar.VarChar.AssignOwnSliceAsWritten` (see Findings).
- VarChar.VarChar.Assign: the `const Char *` and `initializer_list` overloads are not separate members; they build a view and call `Assign(view)`.
- The following `StaticVector` members are not modelled:
  - `Swap`, `Extract`, `UncheckedAppend`;
  - the enumerators;
  - the copy/move constructors and assignments, which are `Clear` followed by `Append`.
- `StaticVector` elements are values: construction and destruction side effects are reduced to the outcome of each construction.
- StaticVector.StaticVector.constructor: requires a capacity below `SIZE_MAX`, as the inline array cannot be larger.
- The `StringStack` buffer's lifetime is not modelled:
  - `MCFBUILD_StringStackUninitialize` (freeing the buffer);
  - `MCFBUILD_StringStackPushNullTerminated` (`wcslen`);
  - the raw `HeapRealloc` call, whose outcome is the `allocOk` parameter.
- StringStack.StringStack.Push: requires the record size of the string to fit in a `size_t`. The source computes it without an overflow check, and a string in memory can never be that long.
- The AVL tree's rebalancing is not modelled:
  - `MCF_AvlInternalAttach`, `MCF_AvlInternalDetach`, `MCF_AvlFront`, `MCF_AvlBack` and `MCF_AvlSwap` are only declared in the header. Attachment is modelled as linking a leaf (`Link`), before any rotation.
  - The `pParent`/`ppRefl` pointer threading is reduced to an in-order position and a side.
- The AVL comparator is the order of integer keys. A user comparator that is not a strict weak order is not modelled.
- AvlTree.AttachWithHint: requires a tree that is ordered and whose heights are those of its subtrees. The source relies on this for its `ASSERT`s that the chosen slot is empty.
- The comparison operators and `operator Handle`/`operator bool` of `UniqueHandle` are not modelled.

## Findings

| source | as written | input that shows it | evidently intended | confidence | as-written member | corrected member |
|---|---|---|---|---|---|---|
| MCF/Core/VarChar.hpp:323-329 | `UncheckedPush` stores the char at the index held in the complement-length byte (capacity - size), not at index size | `VarChar<8>`, empty, `UncheckedPush('a')`: the char lands on the length byte, which then reads 96 after the decrement, so `GetSize` yields 2^32 - 88 | store the char at index size, then decrement the complement byte | high, not executed | VarChar.VarChar.UncheckedPushAsWritten, VarChar.UncheckedPushOnEmpty | VarChar.VarChar.UncheckedPush |
| MCFCRT/env/avl_tree.h:179-209 | `EqualRange` finds `begin` and `end` only along the left and right spines below `Find`'s node, so with repeated keys it can miss equal nodes that hang off those spines | a valid AVL tree with in-order keys 1,3,5,5,5,5 whose root is the second 5 and whose left child 3 has the first 5 as its right child: `begin` is the root (position 3), but the equal range begins at position 2 | `begin` = lower bound and `end` = upper bound, which bracket exactly the equal nodes | medium, not executed | AvlTree.EqualRangeAsWritten, AvlTree.SpineRangeMissesEqual | AvlTree.EqualRange |
| MCF/src/SmartPointers/IntrusivePtr.hpp:672-678 | `IntrusiveWeakPtr::GetWeakRef` subtracts one for the owner's hold even after the owner has died and released that hold | one object, one weak handle to it, then the last strong handle ends: the view's counter is 1, and `GetWeakRef` reports 0 although one weak handle exists | subtract the owner's hold only while the owner lives | medium, not executed | IntrusivePtr.Heap.WeakGetWeakRef, IntrusivePtr.WeakRefAfterOwnerDies | IntrusivePtr.Heap.WeakRefCount |
| MCF/Core/VarChar.hpp:302-305 | `Assign(view)` calls `Resize(n)` and then `GetStr()`, which writes a NUL at index `n`, before `Copy` reads the view; when the view lies in the string's own chars and covers index `n`, the NUL overwrites one of its chars before it is copied | `VarChar<8>` holding "abcd", `Assign(Slice(1, 4))`: the result is "bc" followed by NUL, not "bcd" | copy the view's chars first, then write the terminator, so the contents are the view | medium, not executed | VarChar.VarChar.AssignOwnSliceAsWritten, VarChar.AssignOwnSliceOnAbcd | VarChar.VarChar.AssignOwnSlice |
