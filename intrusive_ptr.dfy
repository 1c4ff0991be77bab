// Intrusive strong/weak reference counting (MCF/src/SmartPointers/IntrusivePtr.hpp).
//
// Every counted block of the process -- an object deriving from
// `DeletableBase` or the weak view an object publishes -- lives in one
// `Heap` at an address, with its `RefCountBase` counter in the block. Every
// `IntrusivePtr` and `IntrusiveWeakPtr` variable is a handle whose pointer
// field is a slot in `ptr` or `weak`. Each atomic operation is one step.
// The invariant `Valid` says that each counter equals the number of
// references to its block: for an object, the strong handles and the owning
// raw pointers; for a view, the weak handles, the owning raw view pointers
// and the owner's own hold while the owner lives.

module IntrusivePtr {
  import opened Machine

  /** Address of a counted block: an object or a weak view. */
  type Addr = nat
  /** A live `IntrusivePtr` or `IntrusiveWeakPtr` variable. */
  type Handle = nat

  /** How `StaticCastOrDynamicCast` converts an element pointer: a static
      conversion (an upcast or a `const_cast`) always succeeds; a
      `dynamic_cast` to `target` succeeds iff the object's dynamic type
      derives from it. */
  datatype Conversion = Static | Dynamic(target: nat)

  /** Whether converting an object whose dynamic type derives from `types`
      yields a non-null pointer. */
  predicate Converts(types: set<nat>, c: Conversion)
  {
    c.Static? || c.target in types
  }

  /** A counted block. An object carries its `x_uRef`, its `x_pView` and the
      types a `dynamic_cast` of it accepts; a `WeakViewTemplate` carries its
      `x_uRef` and its `x_pOwner`. */
  datatype Block =
    | Object(ref: nat, view: Option<Addr>, types: set<nat>)
    | View(ref: nat, owner: Option<Addr>)


  // ---------------------------------------------------------------
  // Counting the slots that hold an address

  /** The number of slots of `m` that hold `a`. */
  ghost function Count(m: map<Handle, Option<Addr>>, a: Addr): nat
    decreases |m|
  {
    if m == map[] then 0 else
    var h :| h in m; Count(m - {h}, a) + (if m[h] == Some(a) then 1 else 0)
  }

  /** `Count` does not depend on the slot it picks first. */
  lemma {:induction false} CountRemove(m: map<Handle, Option<Addr>>, h: Handle, a: Addr)
    requires h in m
    ensures Count(m, a) == Count(m - {h}, a) + (if m[h] == Some(a) then 1 else 0)
    decreases |m|
  {
    var k :| k in m && Count(m, a) == Count(m - {k}, a) + (if m[k] == Some(a) then 1 else 0);
    if k != h {
      assert m - {k} - {h} == m - {h} - {k};
      CountRemove(m - {k}, h, a);
      CountRemove(m - {h}, k, a);
    }
  }

  /** A new slot adds what it holds. */
  lemma CountAdd(m: map<Handle, Option<Addr>>, h: Handle, x: Option<Addr>)
    requires h !in m
    ensures forall a: Addr :: Count(m[h := x], a) == Count(m, a) + (if x == Some(a) then 1 else 0)
  {
    assert m[h := x] - {h} == m;
    forall a: Addr
      ensures Count(m[h := x], a) == Count(m, a) + (if x == Some(a) then 1 else 0)
    {
      CountRemove(m[h := x], h, a);
    }
  }

  /** Ending slot `h` drops what it held. */
  lemma CountDelete(m: map<Handle, Option<Addr>>, h: Handle)
    requires h in m
    ensures forall a: Addr :: Count(m - {h}, a) == Count(m, a) - (if m[h] == Some(a) then 1 else 0)
  {
    forall a: Addr
      ensures Count(m - {h}, a) == Count(m, a) - (if m[h] == Some(a) then 1 else 0)
    {
      CountRemove(m, h, a);
    }
  }

  /** Storing `x` into slot `h` replaces what the slot held by `x`. */
  lemma CountStore(m: map<Handle, Option<Addr>>, h: Handle, x: Option<Addr>)
    requires h in m
    ensures forall a: Addr :: Count(m[h := x], a) == Count(m, a) - (if m[h] == Some(a) then 1 else 0) + (if x == Some(a) then 1 else 0)
  {
    assert (m - {h})[h := x] == m[h := x];
    CountDelete(m, h);
    CountAdd(m - {h}, h, x);
  }

  /** Exchanging two slots holds the same addresses. */
  lemma CountSwap(m: map<Handle, Option<Addr>>, h: Handle, k: Handle)
    requires h in m && k in m
    ensures forall a: Addr :: Count(m[h := m[k]][k := m[h]], a) == Count(m, a)
  {
    if h != k {
      CountStore(m, h, m[k]);
      CountStore(m[h := m[k]], k, m[h]);
    } else {
      assert m[h := m[k]][k := m[h]] == m;
    }
  }

  /** A slot that holds `a` is counted. */
  lemma CountSlot(m: map<Handle, Option<Addr>>, h: Handle)
    requires h in m && m[h].Some?
    ensures Count(m, m[h].value) > 0
  {
    CountRemove(m, h, m[h].value);
  }

  /** No slot holds an address whose count is zero. */
  lemma CountZero(m: map<Handle, Option<Addr>>, a: Addr)
    requires Count(m, a) == 0
    ensures forall h :: h in m ==> m[h] != Some(a)
  {
    forall h | h in m
      ensures m[h] != Some(a)
    {
      CountRemove(m, h, a);
    }
  }

  /** The count of an address no slot holds is zero. */
  lemma {:induction false} CountOutside(m: map<Handle, Option<Addr>>, a: Addr)
    requires forall h :: h in m ==> m[h] != Some(a)
    ensures Count(m, a) == 0
    decreases |m|
  {
    if m != map[] {
      var h :| h in m;
      CountRemove(m, h, a);
      CountOutside(m - {h}, a);
    }
  }


  // ---------------------------------------------------------------
  // The heap invariant, on values

  predicate IsObject(b: map<Addr, Block>, a: Addr)
  {
    a in b && b[a].Object?
  }

  predicate IsView(b: map<Addr, Block>, a: Addr)
  {
    a in b && b[a].View?
  }

  /** The number of references to block `a` that raw pointers own: the
      pointer `new` returned, or one that `Release`, `X_Fork` or
      `LockOwner` handed out and no handle has adopted yet. */
  function Raw(raw: map<Addr, nat>, a: Addr): nat
  {
    if a in raw then raw[a] else 0
  }

  /** The raw references after one more to `p`'s block. */
  function Bump(raw: map<Addr, nat>, p: Option<Addr>): map<Addr, nat>
  {
    if p.None? then raw else raw[p.value := Raw(raw, p.value) + 1]
  }

  /** The raw references after a handle adopts the one to `p`'s block; a
      block no raw pointer owns any more leaves the map. */
  function Spend(raw: map<Addr, nat>, p: Option<Addr>): map<Addr, nat>
  {
    if p.None? then raw
    else if Raw(raw, p.value) <= 1 then raw - {p.value}
    else raw[p.value := Raw(raw, p.value) - 1]
  }

  /** `Bump` adds one raw reference to `p`'s block and none elsewhere. */
  lemma RawBump(raw: map<Addr, nat>, p: Option<Addr>)
    ensures forall a: Addr :: Raw(Bump(raw, p), a) == Raw(raw, a) + (if p == Some(a) then 1 else 0)
  {
  }

  /** `Spend` takes one raw reference from `p`'s block, if it has one, and
      none elsewhere. */
  lemma RawSpend(raw: map<Addr, nat>, p: Option<Addr>)
    ensures forall a: Addr :: Raw(Spend(raw, p), a) == Raw(raw, a) - (if p == Some(a) && Raw(raw, a) > 0 then 1 else 0)
  {
  }

  /** Handing a reference just taken to a handle leaves the raw references
      as they were. */
  lemma BumpSpend(raw: map<Addr, nat>, p: Option<Addr>)
    requires p.Some? && p.value in raw ==> raw[p.value] > 0
    ensures Spend(Bump(raw, p), p) == raw
  {
    if p.Some? && p.value !in raw {
      assert raw[p.value := 1] - {p.value} == raw;
    }
  }

  /** Blocks and handles are numbered below the next fresh number. */
  ghost predicate Bounded(b: map<Addr, Block>, ptr: map<Handle, Option<Addr>>, weak: map<Handle, Option<Addr>>, next: nat)
  {
    && (forall a :: a in b ==> a < next)
    && (forall h :: h in ptr ==> h < next)
    && (forall h :: h in weak ==> h < next)
  }

  /** Raw pointers own references only to live blocks, and the map keeps
      only positive numbers. */
  ghost predicate Owned(b: map<Addr, Block>, raw: map<Addr, nat>)
  {
    forall a :: a in raw ==> a in b && raw[a] > 0
  }

  /** An object's published view is a view whose owner is that object, and
      a view's owner is an object that published it. */
  ghost predicate Linked(b: map<Addr, Block>)
  {
    && (forall o {:trigger b[o].view} :: IsObject(b, o) && b[o].view.Some? ==> IsView(b, b[o].view.value))
    && (forall v {:trigger b[v].owner} :: IsView(b, v) && b[v].owner.Some? ==> IsObject(b, b[v].owner.value))
    && (forall o, v {:trigger b[o].view, b[v].owner} :: IsObject(b, o) && IsView(b, v) ==> (b[o].view == Some(v) <==> b[v].owner == Some(o)))
  }

  /** Strong handles hold live objects and weak handles live views. */
  ghost predicate Targets(b: map<Addr, Block>, ptr: map<Handle, Option<Addr>>, weak: map<Handle, Option<Addr>>)
  {
    && (forall h :: h in ptr && ptr[h].Some? ==> IsObject(b, ptr[h].value))
    && (forall h :: h in weak && weak[h].Some? ==> IsView(b, weak[h].value))
  }

  /** The references to a block that handles and owners hold: for an object
      the strong handles holding it; for a view the weak handles holding it
      plus the owner's hold while the owner lives. */
  ghost function Holds(x: Block, a: Addr, ptr: map<Handle, Option<Addr>>, weak: map<Handle, Option<Addr>>): nat
  {
    match x
    case Object(_, _, _) => Count(ptr, a)
    case View(_, owner) => Count(weak, a) + (if owner.Some? then 1 else 0)
  }

  /** Every counter equals the number of references to its block: those
      held by handles and the owner, and those raw pointers own. */
  ghost predicate Counted(b: map<Addr, Block>, ptr: map<Handle, Option<Addr>>, weak: map<Handle, Option<Addr>>, raw: map<Addr, nat>)
  {
    forall a {:trigger Holds(b[a], a, ptr, weak)} :: a in b ==> Holds(b[a], a, ptr, weak) + Raw(raw, a) == b[a].ref
  }

  /** `Counted`, except possibly at block `x`, whose counter is being
      changed. */
  ghost predicate CountedBut(b: map<Addr, Block>, ptr: map<Handle, Option<Addr>>, weak: map<Handle, Option<Addr>>, raw: map<Addr, nat>, x: Addr)
  {
    forall a {:trigger Holds(b[a], a, ptr, weak)} :: a in b && a != x ==> Holds(b[a], a, ptr, weak) + Raw(raw, a) == b[a].ref
  }

  /** Every block but those in `dying` has a positive counter. */
  ghost predicate Live(b: map<Addr, Block>, dying: set<Addr>)
  {
    forall a :: a in b && a !in dying ==> b[a].ref > 0
  }

  /** The deleter ran on distinct objects, each numbered before `next` and
      none of them live any more: no object is deleted twice. */
  ghost predicate Retired(b: map<Addr, Block>, deleted: seq<Addr>, next: nat)
  {
    && (forall i :: 0 <= i < |deleted| ==> deleted[i] < next && deleted[i] !in b)
    && (forall i, j :: 0 <= i < j < |deleted| ==> deleted[i] != deleted[j])
  }

  // ---------------------------------------------------------------
  // How the blocks change

  /** The blocks `b` with the counter of `a` set to `n`. */
  function SetRef(b: map<Addr, Block>, a: Addr, n: nat): map<Addr, Block>
    requires a in b
  {
    b[a := b[a].(ref := n)]
  }

  /** An object whose view, if any, is a view with a positive counter, as
      the deleter needs. */
  predicate Deletable(b: map<Addr, Block>, o: Addr)
  {
    IsObject(b, o) && (b[o].view.Some? ==> IsView(b, b[o].view.value) && b[b[o].view.value].ref > 0)
  }

  /** The blocks after the deleter runs on object `o`: `~DeletableBase`
      drops the object's hold on its view, deleting the view if that was
      its last reference and clearing the view's owner otherwise; then the
      object's block is freed. */
  function Freed(b: map<Addr, Block>, o: Addr): map<Addr, Block>
    requires Deletable(b, o)
  {
    match b[o].view
    case None => b - {o}
    case Some(v) =>
      var dropped := SetRef(b, v, b[v].ref - 1);
      if b[v].ref == 1 then dropped - {v} - {o}
      else dropped[v := View(dropped[v].ref, None)] - {o}
  }

  /** The blocks after one more reference to `p`'s block. */
  function Fork(b: map<Addr, Block>, p: Option<Addr>): map<Addr, Block>
    requires p.Some? ==> p.value in b
  {
    if p.None? then b else SetRef(b, p.value, b[p.value].ref + 1)
  }

  /** The blocks after a strong reference to `p`'s object ends: the counter
      goes down, and the deleter runs if it reached zero. */
  function DropStrong(b: map<Addr, Block>, p: Option<Addr>): map<Addr, Block>
    requires p.Some? ==> p.value in b && b[p.value].ref > 0
    requires p.Some? && b[p.value].ref == 1 ==> Deletable(b, p.value)
  {
    if p.None? then b
    else if b[p.value].ref == 1 then Freed(SetRef(b, p.value, 0), p.value)
    else SetRef(b, p.value, b[p.value].ref - 1)
  }

  /** The objects deleted when a strong reference to `p`'s object ends. */
  function FreedBy(b: map<Addr, Block>, p: Option<Addr>): seq<Addr>
    requires p.Some? ==> p.value in b
  {
    if p.Some? && b[p.value].ref == 1 then [p.value] else []
  }

  /** The blocks after a weak reference to view `pv` ends: the counter goes
      down, and the view is deleted if it reached zero. */
  function DropWeak(b: map<Addr, Block>, pv: Option<Addr>): map<Addr, Block>
    requires pv.Some? ==> pv.value in b && b[pv.value].ref > 0
  {
    if pv.None? then b
    else if b[pv.value].ref == 1 then SetRef(b, pv.value, 0) - {pv.value}
    else SetRef(b, pv.value, b[pv.value].ref - 1)
  }

  /** The blocks after `X_RequireView` on object `o`, a view created
      there being numbered `v`. */
  function WithView(b: map<Addr, Block>, o: Addr, v: Addr): (c: map<Addr, Block>)
    requires IsObject(b, o)
    ensures IsObject(c, o) && c[o].view.Some?
  {
    if b[o].view.Some? then b else b[v := View(1, Some(o))][o := b[o].(view := Some(v))]
  }

  /** The view `X_CreateViewFromElement(p)` returns, a view created there
      being numbered `v`. */
  function NewWeak(b: map<Addr, Block>, p: Option<Addr>, v: Addr): Option<Addr>
    requires p.Some? ==> IsObject(b, p.value)
  {
    if p.None? then None else WithView(b, p.value, v)[p.value].view
  }

  /** The blocks after `X_CreateViewFromElement(p)`: the object gets a
      view if it had none, and the view one more reference. */
  function AddWeak(b: map<Addr, Block>, p: Option<Addr>, v: Addr): map<Addr, Block>
    requires p.Some? ==> IsObject(b, p.value) && (b[p.value].view.Some? ==> b[p.value].view.value in b)
  {
    if p.None? then b else Fork(WithView(b, p.value, v), NewWeak(b, p, v))
  }

  /** `StaticCastOrDynamicCast` of the element pointer `p`: null stays
      null, and a conversion the object's type does not allow yields null. */
  function Cast(b: map<Addr, Block>, p: Option<Addr>, c: Conversion): (q: Option<Addr>)
    ensures q.Some? ==> q == p
  {
    if p.Some? && p.value in b && b[p.value].Object? && Converts(b[p.value].types, c) then p else None
  }

  /** What `WeakViewTemplate::LockOwner` yields for view `v`: its owner,
      when the owner is alive and converts. */
  function Lockable(b: map<Addr, Block>, v: Addr, c: Conversion): (p: Option<Addr>)
    requires IsView(b, v)
    ensures p.Some? ==> b[v].owner == p && p.value in b
  {
    match b[v].owner
    case None => None
    case Some(o) =>
      if o in b && b[o].Object? && b[o].ref != 0 && Converts(b[o].types, c) then Some(o) else None
  }

  // ---------------------------------------------------------------
  // Each change keeps the invariant

  lemma GrowBounded(b: map<Addr, Block>, ptr: map<Handle, Option<Addr>>, weak: map<Handle, Option<Addr>>, next: nat, x: Block)
    requires Bounded(b, ptr, weak, next)
    ensures Bounded(b[next := x], ptr, weak, next + 1)
  {
  }

  lemma ShrinkBounded(b: map<Addr, Block>, c: map<Addr, Block>, ptr: map<Handle, Option<Addr>>, weak: map<Handle, Option<Addr>>, next: nat)
    requires Bounded(b, ptr, weak, next) && c.Keys <= b.Keys
    ensures Bounded(c, ptr, weak, next)
  {
  }

  /** A block numbered afresh is held by no handle. */
  lemma FreshUnheld(b: map<Addr, Block>, ptr: map<Handle, Option<Addr>>, weak: map<Handle, Option<Addr>>, a: Addr)
    requires Targets(b, ptr, weak) && a !in b
    ensures Count(ptr, a) == 0 && Count(weak, a) == 0
  {
    CountOutside(ptr, a);
    CountOutside(weak, a);
  }

  /** A new object has counter 1, the reference the raw pointer `new`
      yields owns. */
  lemma NewObjectKeeps(b: map<Addr, Block>, ptr: map<Handle, Option<Addr>>, weak: map<Handle, Option<Addr>>, raw: map<Addr, nat>, next: nat, ts: set<nat>)
    requires Inv(b, ptr, weak, raw, next)
    ensures next !in b
    ensures Inv(b[next := Object(1, None, ts)], ptr, weak, Bump(raw, Some(next)), next + 1)
  {
    FreshUnheld(b, ptr, weak, next);
    NewObjectLinked(b, next, ts);
    NewObjectCounted(b, ptr, weak, raw, next, ts);
    GrowBounded(b, ptr, weak, next, Object(1, None, ts));
  }

  lemma NewObjectLinked(b: map<Addr, Block>, o: Addr, ts: set<nat>)
    requires Linked(b) && o !in b
    ensures Linked(b[o := Object(1, None, ts)])
  {
    var c := b[o := Object(1, None, ts)];
    forall p: Addr | IsObject(c, p) && p != o ensures IsObject(b, p) && c[p].view == b[p].view { }
    forall w: Addr | IsView(c, w) ensures IsView(b, w) && c[w].owner == b[w].owner && c[w].owner != Some(o) { }
  }

  lemma NewObjectCounted(b: map<Addr, Block>, ptr: map<Handle, Option<Addr>>, weak: map<Handle, Option<Addr>>, raw: map<Addr, nat>, o: Addr, ts: set<nat>)
    requires Counted(b, ptr, weak, raw) && o !in b && Count(ptr, o) == 0 && Raw(raw, o) == 0
    ensures Counted(b[o := Object(1, None, ts)], ptr, weak, Bump(raw, Some(o)))
  {
    var c := b[o := Object(1, None, ts)];
    RawBump(raw, Some(o));
    forall x | x in c ensures Holds(c[x], x, ptr, weak) + Raw(Bump(raw, Some(o)), x) == c[x].ref {
      if x != o { assert c[x] == b[x]; }
    }
  }

  /** A new view has counter 1, the hold of the object that owns it. */
  lemma NewViewKeeps(b: map<Addr, Block>, ptr: map<Handle, Option<Addr>>, weak: map<Handle, Option<Addr>>, raw: map<Addr, nat>, next: nat, o: Addr)
    requires Inv(b, ptr, weak, raw, next) && IsObject(b, o) && b[o].view.None?
    ensures next !in b
    ensures Inv(WithView(b, o, next), ptr, weak, raw, next + 1)
  {
    FreshUnheld(b, ptr, weak, next);
    NewViewLinked(b, o, next);
    NewViewCounted(b, ptr, weak, raw, o, next);
    GrowBounded(b, ptr, weak, next, View(1, Some(o)));
  }

  lemma NewViewLinked(b: map<Addr, Block>, o: Addr, v: Addr)
    requires Linked(b) && IsObject(b, o) && b[o].view.None? && v !in b
    ensures Linked(b[v := View(1, Some(o))][o := b[o].(view := Some(v))])
  {
    var c := b[v := View(1, Some(o))][o := b[o].(view := Some(v))];
    forall p: Addr | IsObject(c, p) && p != o ensures IsObject(b, p) && c[p].view == b[p].view && c[p].view != Some(v) { }
    forall w: Addr | IsView(c, w) && w != v ensures IsView(b, w) && c[w].owner == b[w].owner && c[w].owner != Some(o) { }
  }

  lemma NewViewCounted(b: map<Addr, Block>, ptr: map<Handle, Option<Addr>>, weak: map<Handle, Option<Addr>>, raw: map<Addr, nat>, o: Addr, v: Addr)
    requires Counted(b, ptr, weak, raw) && IsObject(b, o) && v !in b
    requires Count(weak, v) == 0 && Raw(raw, v) == 0
    ensures Counted(b[v := View(1, Some(o))][o := b[o].(view := Some(v))], ptr, weak, raw)
  {
    var c := b[v := View(1, Some(o))][o := b[o].(view := Some(v))];
    forall x | x in c ensures Holds(c[x], x, ptr, weak) + Raw(raw, x) == c[x].ref {
      if x != o && x != v { assert c[x] == b[x]; }
    }
  }

  /** Setting the counter of `a` to the number of its references restores
      the invariant; the block is dying if that number is zero. */
  lemma SetRefKeeps(b: map<Addr, Block>, ptr: map<Handle, Option<Addr>>, weak: map<Handle, Option<Addr>>, raw: map<Addr, nat>, a: Addr, n: nat)
    requires Linked(b) && Targets(b, ptr, weak) && Owned(b, raw) && CountedBut(b, ptr, weak, raw, a) && Live(b, {}) && a in b
    requires Holds(b[a], a, ptr, weak) + Raw(raw, a) == n
    ensures Linked(SetRef(b, a, n))
    ensures Targets(SetRef(b, a, n), ptr, weak) && Owned(SetRef(b, a, n), raw)
    ensures Counted(SetRef(b, a, n), ptr, weak, raw)
    ensures Live(SetRef(b, a, n), if n == 0 then {a} else {})
  {
    SetRefLinked(b, a, n);
    SetRefCounted(b, ptr, weak, raw, a, n);
  }

  lemma SetRefLinked(b: map<Addr, Block>, a: Addr, n: nat)
    requires Linked(b) && a in b
    ensures Linked(SetRef(b, a, n))
  {
    var c := SetRef(b, a, n);
    forall o | IsObject(c, o) ensures IsObject(b, o) && c[o].view == b[o].view { }
    forall v | IsView(c, v) ensures IsView(b, v) && c[v].owner == b[v].owner { }
  }

  lemma SetRefCounted(b: map<Addr, Block>, ptr: map<Handle, Option<Addr>>, weak: map<Handle, Option<Addr>>, raw: map<Addr, nat>, a: Addr, n: nat)
    requires CountedBut(b, ptr, weak, raw, a) && a in b && Holds(b[a], a, ptr, weak) + Raw(raw, a) == n
    ensures Counted(SetRef(b, a, n), ptr, weak, raw)
  {
    var c := SetRef(b, a, n);
    forall x | x in c ensures Holds(c[x], x, ptr, weak) + Raw(raw, x) == c[x].ref {
      if x != a { assert c[x] == b[x]; }
    }
  }

  /** A new strong slot `h` adopting the raw reference to `x`'s object
      keeps the invariant. */
  lemma AdoptPtrKeeps(b: map<Addr, Block>, ptr: map<Handle, Option<Addr>>, weak: map<Handle, Option<Addr>>, raw: map<Addr, nat>, h: Handle, x: Option<Addr>)
    requires Targets(b, ptr, weak) && Owned(b, raw) && Counted(b, ptr, weak, raw) && h !in ptr
    requires x.Some? ==> IsObject(b, x.value) && Raw(raw, x.value) > 0
    ensures Targets(b, ptr[h := x], weak) && Owned(b, Spend(raw, x))
    ensures Counted(b, ptr[h := x], weak, Spend(raw, x))
  {
    CountAdd(ptr, h, x);
    RawSpend(raw, x);
    forall a | a in b
      ensures Holds(b[a], a, ptr[h := x], weak) + Raw(Spend(raw, x), a) == b[a].ref
    {
      assert Holds(b[a], a, ptr, weak) + Raw(raw, a) == b[a].ref;
    }
  }

  /** Strong slot `h` becoming null hands its reference to a raw pointer. */
  lemma ReleasePtrKeeps(b: map<Addr, Block>, ptr: map<Handle, Option<Addr>>, weak: map<Handle, Option<Addr>>, raw: map<Addr, nat>, h: Handle)
    requires Targets(b, ptr, weak) && Owned(b, raw) && Counted(b, ptr, weak, raw) && h in ptr
    ensures Targets(b, ptr[h := None], weak) && Owned(b, Bump(raw, ptr[h]))
    ensures Counted(b, ptr[h := None], weak, Bump(raw, ptr[h]))
  {
    CountStore(ptr, h, None);
    RawBump(raw, ptr[h]);
    forall a | a in b
      ensures Holds(b[a], a, ptr[h := None], weak) + Raw(Bump(raw, ptr[h]), a) == b[a].ref
    {
      assert Holds(b[a], a, ptr, weak) + Raw(raw, a) == b[a].ref;
    }
  }

  /** Ending strong slot `h` leaves every counter but its object's exact. */
  lemma DeletePtrKeeps(b: map<Addr, Block>, ptr: map<Handle, Option<Addr>>, weak: map<Handle, Option<Addr>>, raw: map<Addr, nat>, h: Handle)
    requires Targets(b, ptr, weak) && Counted(b, ptr, weak, raw) && h in ptr
    ensures Targets(b, ptr - {h}, weak)
    ensures ptr[h].None? ==> Counted(b, ptr - {h}, weak, raw)
    ensures ptr[h].Some? ==> CountedBut(b, ptr - {h}, weak, raw, ptr[h].value)
    ensures ptr[h].Some? ==> Count(ptr - {h}, ptr[h].value) + 1 == Count(ptr, ptr[h].value)
  {
    CountDelete(ptr, h);
    forall a | a in b && ptr[h] != Some(a)
      ensures Holds(b[a], a, ptr - {h}, weak) == Holds(b[a], a, ptr, weak)
    {
    }
  }

  /** Exchanging two strong slots keeps the invariant. */
  lemma SwapPtrKeeps(b: map<Addr, Block>, ptr: map<Handle, Option<Addr>>, weak: map<Handle, Option<Addr>>, raw: map<Addr, nat>, h: Handle, k: Handle)
    requires Targets(b, ptr, weak) && Counted(b, ptr, weak, raw) && h in ptr && k in ptr
    ensures Targets(b, ptr[h := ptr[k]][k := ptr[h]], weak) && Counted(b, ptr[h := ptr[k]][k := ptr[h]], weak, raw)
  {
    CountSwap(ptr, h, k);
    forall a | a in b
      ensures Holds(b[a], a, ptr[h := ptr[k]][k := ptr[h]], weak) == Holds(b[a], a, ptr, weak)
    {
    }
  }

  /** A new weak slot `w` adopting the raw reference to view `x` keeps the
      invariant. */
  lemma AdoptWeakKeeps(b: map<Addr, Block>, ptr: map<Handle, Option<Addr>>, weak: map<Handle, Option<Addr>>, raw: map<Addr, nat>, w: Handle, x: Option<Addr>)
    requires Targets(b, ptr, weak) && Owned(b, raw) && Counted(b, ptr, weak, raw) && w !in weak
    requires x.Some? ==> IsView(b, x.value) && Raw(raw, x.value) > 0
    ensures Targets(b, ptr, weak[w := x]) && Owned(b, Spend(raw, x))
    ensures Counted(b, ptr, weak[w := x], Spend(raw, x))
  {
    CountAdd(weak, w, x);
    RawSpend(raw, x);
    forall a | a in b
      ensures Holds(b[a], a, ptr, weak[w := x]) + Raw(Spend(raw, x), a) == b[a].ref
    {
      assert Holds(b[a], a, ptr, weak) + Raw(raw, a) == b[a].ref;
    }
  }

  /** Weak slot `w` becoming null hands its reference to a raw pointer. */
  lemma ReleaseWeakKeeps(b: map<Addr, Block>, ptr: map<Handle, Option<Addr>>, weak: map<Handle, Option<Addr>>, raw: map<Addr, nat>, w: Handle)
    requires Targets(b, ptr, weak) && Owned(b, raw) && Counted(b, ptr, weak, raw) && w in weak
    ensures Targets(b, ptr, weak[w := None]) && Owned(b, Bump(raw, weak[w]))
    ensures Counted(b, ptr, weak[w := None], Bump(raw, weak[w]))
  {
    CountStore(weak, w, None);
    RawBump(raw, weak[w]);
    forall a | a in b
      ensures Holds(b[a], a, ptr, weak[w := None]) + Raw(Bump(raw, weak[w]), a) == b[a].ref
    {
      assert Holds(b[a], a, ptr, weak) + Raw(raw, a) == b[a].ref;
    }
  }

  /** Ending weak slot `w` leaves every counter but its view's exact. */
  lemma DeleteWeakKeeps(b: map<Addr, Block>, ptr: map<Handle, Option<Addr>>, weak: map<Handle, Option<Addr>>, raw: map<Addr, nat>, w: Handle)
    requires Targets(b, ptr, weak) && Counted(b, ptr, weak, raw) && w in weak
    ensures Targets(b, ptr, weak - {w})
    ensures weak[w].None? ==> Counted(b, ptr, weak - {w}, raw)
    ensures weak[w].Some? ==> CountedBut(b, ptr, weak - {w}, raw, weak[w].value)
    ensures weak[w].Some? ==> Count(weak - {w}, weak[w].value) + 1 == Count(weak, weak[w].value)
  {
    CountDelete(weak, w);
    forall a | a in b && weak[w] != Some(a)
      ensures Holds(b[a], a, ptr, weak - {w}) == Holds(b[a], a, ptr, weak)
    {
    }
  }

  /** Exchanging two weak slots keeps the invariant. */
  lemma SwapWeakKeeps(b: map<Addr, Block>, ptr: map<Handle, Option<Addr>>, weak: map<Handle, Option<Addr>>, raw: map<Addr, nat>, w: Handle, k: Handle)
    requires Targets(b, ptr, weak) && Counted(b, ptr, weak, raw) && w in weak && k in weak
    ensures Targets(b, ptr, weak[w := weak[k]][k := weak[w]]) && Counted(b, ptr, weak[w := weak[k]][k := weak[w]], raw)
  {
    CountSwap(weak, w, k);
    forall a | a in b
      ensures Holds(b[a], a, ptr, weak[w := weak[k]][k := weak[w]]) == Holds(b[a], a, ptr, weak)
    {
    }
  }

  /** Deleting an object whose counter reached zero keeps the invariant:
      nothing refers to it, and its view loses the owner's hold and goes
      away with its last reference. */
  lemma FreedKeeps(b: map<Addr, Block>, ptr: map<Handle, Option<Addr>>, weak: map<Handle, Option<Addr>>, raw: map<Addr, nat>, o: Addr)
    requires Linked(b) && Targets(b, ptr, weak) && Owned(b, raw) && Counted(b, ptr, weak, raw) && Live(b, {o})
    requires IsObject(b, o) && b[o].ref == 0
    ensures Deletable(b, o)
    ensures Linked(Freed(b, o)) && Targets(Freed(b, o), ptr, weak) && Owned(Freed(b, o), raw)
    ensures Counted(Freed(b, o), ptr, weak, raw) && Live(Freed(b, o), {})
  {
    assert Deletable(b, o);
    assert Holds(b[o], o, ptr, weak) + Raw(raw, o) == 0;
    CountZero(ptr, o);
    if b[o].view.Some? {
      var v := b[o].view.value;
      if b[v].ref == 1 {
        assert Holds(b[v], v, ptr, weak) + Raw(raw, v) == 1;
        CountZero(weak, v);
      }
    }
    FreedLinked(b, o);
    FreedTargets(b, ptr, weak, o);
    FreedOwned(b, raw, o);
    FreedCounted(b, ptr, weak, raw, o);
    FreedLive(b, o);
  }

  lemma FreedLinked(b: map<Addr, Block>, o: Addr)
    requires Linked(b) && Deletable(b, o)
    ensures Linked(Freed(b, o))
  {
  }

  lemma FreedTargets(b: map<Addr, Block>, ptr: map<Handle, Option<Addr>>, weak: map<Handle, Option<Addr>>, o: Addr)
    requires Targets(b, ptr, weak) && Deletable(b, o)
    requires forall h :: h in ptr ==> ptr[h] != Some(o)
    requires b[o].view.Some? && b[b[o].view.value].ref == 1 ==> forall h :: h in weak ==> weak[h] != b[o].view
    ensures Targets(Freed(b, o), ptr, weak)
  {
  }

  lemma FreedOwned(b: map<Addr, Block>, raw: map<Addr, nat>, o: Addr)
    requires Owned(b, raw) && Deletable(b, o) && Raw(raw, o) == 0
    requires b[o].view.Some? && b[b[o].view.value].ref == 1 ==> Raw(raw, b[o].view.value) == 0
    ensures Owned(Freed(b, o), raw)
  {
  }

  lemma FreedCounted(b: map<Addr, Block>, ptr: map<Handle, Option<Addr>>, weak: map<Handle, Option<Addr>>, raw: map<Addr, nat>, o: Addr)
    requires Linked(b) && Counted(b, ptr, weak, raw) && Deletable(b, o)
    ensures Counted(Freed(b, o), ptr, weak, raw)
  {
    var c := Freed(b, o);
    forall a | a in c
      ensures Holds(c[a], a, ptr, weak) + Raw(raw, a) == c[a].ref
    {
      if b[o].view != Some(a) {
        assert c[a] == b[a];
      }
    }
  }

  lemma FreedLive(b: map<Addr, Block>, o: Addr)
    requires Live(b, {o}) && Deletable(b, o)
    ensures Live(Freed(b, o), {})
  {
  }

  /** Deleting a view whose counter reached zero keeps the invariant. */
  lemma RemoveViewKeeps(b: map<Addr, Block>, ptr: map<Handle, Option<Addr>>, weak: map<Handle, Option<Addr>>, raw: map<Addr, nat>, v: Addr)
    requires Linked(b) && Targets(b, ptr, weak) && Owned(b, raw) && Counted(b, ptr, weak, raw) && Live(b, {v})
    requires IsView(b, v) && b[v].ref == 0
    ensures Linked(b - {v}) && Targets(b - {v}, ptr, weak) && Owned(b - {v}, raw)
    ensures Counted(b - {v}, ptr, weak, raw) && Live(b - {v}, {})
  {
    assert Holds(b[v], v, ptr, weak) + Raw(raw, v) == 0;
    CountZero(weak, v);
  }

  // ---------------------------------------------------------------
  // The whole invariant

  /** Handles and blocks are numbered below `next`, views and owners are
      linked, handles and raw pointers refer to live blocks, and every
      counter equals the number of references to its block. */
  ghost predicate Inv(b: map<Addr, Block>, ptr: map<Handle, Option<Addr>>, weak: map<Handle, Option<Addr>>, raw: map<Addr, nat>, next: nat)
  {
    && Bounded(b, ptr, weak, next)
    && Linked(b)
    && Targets(b, ptr, weak)
    && Owned(b, raw)
    && Counted(b, ptr, weak, raw)
    && Live(b, {})
  }

  /** One more reference to `p`'s block, owned by a raw pointer, keeps the
      invariant. */
  lemma ForkKeeps(b: map<Addr, Block>, ptr: map<Handle, Option<Addr>>, weak: map<Handle, Option<Addr>>, raw: map<Addr, nat>, next: nat, p: Option<Addr>)
    requires Inv(b, ptr, weak, raw, next) && (p.Some? ==> p.value in b)
    ensures Inv(Fork(b, p), ptr, weak, Bump(raw, p), next)
  {
    if p.Some? {
      var a := p.value;
      RawBump(raw, p);
      assert CountedBut(b, ptr, weak, Bump(raw, p), a);
      SetRefKeeps(b, ptr, weak, Bump(raw, p), a, b[a].ref + 1);
    }
  }

  /** Ending strong handle `h` keeps the invariant: the counter loses the
      handle's reference, and if that was the last the deleter runs. */
  lemma DropStrongKeeps(b: map<Addr, Block>, ptr: map<Handle, Option<Addr>>, weak: map<Handle, Option<Addr>>, raw: map<Addr, nat>, next: nat, h: Handle)
    requires Inv(b, ptr, weak, raw, next) && h in ptr
    ensures ptr[h].Some? ==> Deletable(b, ptr[h].value) && b[ptr[h].value].ref > 0
    ensures Inv(DropStrong(b, ptr[h]), ptr - {h}, weak, raw, next)
  {
    DeletePtrKeeps(b, ptr, weak, raw, h);
    if ptr[h].Some? {
      var o := ptr[h].value;
      assert Holds(b[o], o, ptr, weak) + Raw(raw, o) == b[o].ref;
      DropOneKeeps(b, ptr - {h}, weak, raw, next, o);
    }
  }

  /** A strong reference to object `o` that no handle holds any more
      ending keeps the invariant. */
  lemma DropOneKeeps(b: map<Addr, Block>, ptr: map<Handle, Option<Addr>>, weak: map<Handle, Option<Addr>>, raw: map<Addr, nat>, next: nat, o: Addr)
    requires Bounded(b, ptr, weak, next) && Linked(b) && Targets(b, ptr, weak) && Owned(b, raw) && CountedBut(b, ptr, weak, raw, o) && Live(b, {})
    requires IsObject(b, o) && Count(ptr, o) + 1 + Raw(raw, o) == b[o].ref
    ensures b[o].ref == 1 ==> Deletable(b, o)
    ensures Inv(DropStrong(b, Some(o)), ptr, weak, raw, next)
  {
    if b[o].ref == 1 {
      DropLastKeeps(b, ptr, weak, raw, next, o);
    } else {
      SetRefKeeps(b, ptr, weak, raw, o, b[o].ref - 1);
    }
  }

  /** The last reference to object `o` ending keeps the invariant. */
  lemma DropLastKeeps(b: map<Addr, Block>, ptr: map<Handle, Option<Addr>>, weak: map<Handle, Option<Addr>>, raw: map<Addr, nat>, next: nat, o: Addr)
    requires Bounded(b, ptr, weak, next) && Linked(b) && Targets(b, ptr, weak) && Owned(b, raw) && CountedBut(b, ptr, weak, raw, o) && Live(b, {})
    requires IsObject(b, o) && b[o].ref == 1 && Count(ptr, o) == 0 && Raw(raw, o) == 0
    ensures Deletable(SetRef(b, o, 0), o)
    ensures Inv(Freed(SetRef(b, o, 0), o), ptr, weak, raw, next)
  {
    var z := SetRef(b, o, 0);
    SetRefKeeps(b, ptr, weak, raw, o, 0);
    FreedKeeps(z, ptr, weak, raw, o);
    ShrinkBounded(b, Freed(z, o), ptr, weak, next);
  }

  /** Ending weak handle `w` keeps the invariant: the view's counter loses
      the handle's reference, and if that was the last the owner is gone
      and the view is deleted. */
  lemma DropWeakKeeps(b: map<Addr, Block>, ptr: map<Handle, Option<Addr>>, weak: map<Handle, Option<Addr>>, raw: map<Addr, nat>, next: nat, w: Handle)
    requires Inv(b, ptr, weak, raw, next) && w in weak
    ensures weak[w].Some? ==> IsView(b, weak[w].value) && b[weak[w].value].ref > 0
    ensures Inv(DropWeak(b, weak[w]), ptr, weak - {w}, raw, next)
  {
    DeleteWeakKeeps(b, ptr, weak, raw, w);
    if weak[w].Some? {
      var v := weak[w].value;
      assert Holds(b[v], v, ptr, weak) + Raw(raw, v) == b[v].ref;
      if b[v].ref == 1 {
        SetRefKeeps(b, ptr, weak - {w}, raw, v, 0);
        RemoveViewKeeps(SetRef(b, v, 0), ptr, weak - {w}, raw, v);
        ShrinkBounded(b, SetRef(b, v, 0) - {v}, ptr, weak - {w}, next);
      } else {
        SetRefKeeps(b, ptr, weak - {w}, raw, v, b[v].ref - 1);
      }
    }
  }

  /** A strong reference ending records the object it deletes, which was
      live and is now gone, so no object is deleted twice. */
  lemma RetiredDrop(b: map<Addr, Block>, deleted: seq<Addr>, next: nat, p: Option<Addr>)
    requires Retired(b, deleted, next)
    requires p.Some? ==> p.value in b && p.value < next && b[p.value].ref > 0
    requires p.Some? && b[p.value].ref == 1 ==> Deletable(b, p.value)
    ensures Retired(DropStrong(b, p), deleted + FreedBy(b, p), next)
  {
    if p.Some? && b[p.value].ref == 1 {
      var o := p.value;
      var c := DropStrong(b, p);
      assert forall a :: a in c ==> a in b && a != o;
      assert forall i :: 0 <= i < |deleted| ==> deleted[i] != o;
    } else {
      assert DropStrong(b, p).Keys == b.Keys;
    }
  }

  /** With no raw pointer owning a reference to block `a`, its counter is
      exactly the number of handles holding it, plus the owner's hold for a
      view whose owner lives. */
  lemma CounterIsHandles(b: map<Addr, Block>, ptr: map<Handle, Option<Addr>>, weak: map<Handle, Option<Addr>>, raw: map<Addr, nat>, next: nat, a: Addr)
    requires Inv(b, ptr, weak, raw, next) && a in b && Raw(raw, a) == 0
    ensures b[a].Object? ==> b[a].ref == Count(ptr, a)
    ensures b[a].View? ==> b[a].ref == Count(weak, a) + (if b[a].owner.Some? then 1 else 0)
  {
    assert Holds(b[a], a, ptr, weak) + Raw(raw, a) == b[a].ref;
  }

  /** `LockOwner` fails exactly when the view's owner has died or does not
      convert. */
  lemma LockFailsIffDead(b: map<Addr, Block>, v: Addr, c: Conversion)
    requires Linked(b) && Live(b, {}) && IsView(b, v)
    ensures b[v].owner.Some? ==> b[v].owner.value in b
    ensures Lockable(b, v, c).None? <==> b[v].owner.None? || !Converts(b[b[v].owner.value].types, c)
  {
  }

  /** Exactly one slot holds `a` when its count is at most one. */
  lemma CountOnly(m: map<Handle, Option<Addr>>, h: Handle, a: Addr)
    requires h in m && m[h] == Some(a) && Count(m, a) <= 1
    ensures forall k :: k in m && k != h ==> m[k] != Some(a)
  {
    CountRemove(m, h, a);
    CountZero(m - {h}, a);
    forall k | k in m && k != h
      ensures m[k] != Some(a)
    {
      assert (m - {h})[k] == m[k];
    }
  }

  // ---------------------------------------------------------------
  // Slot maps after a temporary has come and gone

  /** A temporary `t` holding `x`, swapped with `h` and then ended, leaves
      `h` holding `x`. */
  lemma SwapOut(m: map<Handle, Option<Addr>>, h: Handle, t: Handle, x: Option<Addr>)
    requires h in m && t !in m
    ensures m[t := x][t := m[h]][h := x] - {t} == m[h := x]
  {
  }

  /** Adding slot `h` and ending slot `src` commute. */
  lemma DeleteAfterAdd(m: map<Handle, Option<Addr>>, src: Handle, h: Handle, x: Option<Addr>)
    requires h != src
    ensures m[h := x] - {src} == (m - {src})[h := x]
  {
  }

  /** A store into slot `src` is lost when `src` ends. */
  lemma DeleteAfterStore(m: map<Handle, Option<Addr>>, src: Handle, h: Handle, x: Option<Addr>, y: Option<Addr>)
    requires h != src
    ensures m[src := y][h := x] - {src} == (m - {src})[h := x]
  {
    DeleteAfterAdd(m[src := y], src, h, x);
    assert m[src := y] - {src} == m - {src};
  }

  // ---------------------------------------------------------------
  // The heap

  /** All counted blocks of the process and all smart-pointer variables.
      `deleted` records, in order, the objects the deleter has run on;
      `raw` tallies the references raw pointers own. */
  class Heap {
    var blocks: map<Addr, Block>
    var ptr: map<Handle, Option<Addr>>
    var weak: map<Handle, Option<Addr>>
    var next: nat
    var deleted: seq<Addr>
    ghost var raw: map<Addr, nat>

    ghost predicate Valid()
      reads this
    {
      Inv(blocks, ptr, weak, raw, next) && Retired(blocks, deleted, next)
    }

    /** The caller owns a strong reference to object `o` through a raw
        pointer (the result of `new`, `Release`, `X_Fork` or `LockOwner`). */
    ghost predicate OwnsStrong(o: Addr)
      reads this
    {
      IsObject(blocks, o) && Raw(raw, o) > 0
    }

    /** The caller owns a weak reference to view `v` through a raw pointer. */
    ghost predicate OwnsWeak(v: Addr)
      reads this
    {
      IsView(blocks, v) && Raw(raw, v) > 0
    }

    constructor()
      ensures Valid() && blocks == map[] && ptr == map[] && weak == map[] && deleted == [] && raw == map[]
    {
      blocks := map[];
      ptr := map[];
      weak := map[];
      next := 0;
      deleted := [];
      raw := map[];
    }

    // --- RefCountBase

    /** `RefCountBase::AddRef` on a block that has a reference. */
    method AddRef(a: Addr)
      requires a in blocks && blocks[a].ref > 0
      modifies this
      ensures blocks == SetRef(old(blocks), a, old(blocks[a].ref) + 1)
      ensures ptr == old(ptr) && weak == old(weak) && next == old(next) && deleted == old(deleted) && raw == old(raw)
    {
      blocks := SetRef(blocks, a, blocks[a].ref + 1);
    }

    /** `RefCountBase::TryAddRef`: one more reference unless the counter
        already reached zero. */
    method TryAddRef(a: Addr) returns (ok: bool)
      requires a in blocks
      modifies this
      ensures ok <==> old(blocks[a].ref) != 0
      ensures blocks == if ok then SetRef(old(blocks), a, old(blocks[a].ref) + 1) else old(blocks)
      ensures ptr == old(ptr) && weak == old(weak) && next == old(next) && deleted == old(deleted) && raw == old(raw)
    {
      ok := blocks[a].ref != 0;
      if ok {
        blocks := SetRef(blocks, a, blocks[a].ref + 1);
      }
    }

    /** `RefCountBase::DropRef`: one reference less; tells whether it was
        the last. */
    method DropRef(a: Addr) returns (last: bool)
      requires a in blocks && blocks[a].ref > 0
      modifies this
      ensures last <==> old(blocks[a].ref) == 1
      ensures blocks == SetRef(old(blocks), a, old(blocks[a].ref) - 1)
      ensures ptr == old(ptr) && weak == old(weak) && next == old(next) && deleted == old(deleted) && raw == old(raw)
    {
      last := blocks[a].ref == 1;
      blocks := SetRef(blocks, a, blocks[a].ref - 1);
    }

    // --- DeletableBase and its view

    /** `new` of an object deriving from `DeletableBase`: its counter starts
        at 1, the reference the caller's raw pointer owns, and it has no
        view. */
    method NewObject(types: set<nat>) returns (o: Addr)
      requires Valid()
      modifies this
      ensures Valid() && o !in old(blocks)
      ensures blocks == old(blocks)[o := Object(1, None, types)]
      ensures raw == Bump(old(raw), Some(o))
      ensures ptr == old(ptr) && weak == old(weak) && deleted == old(deleted)
      ensures OwnsStrong(o)
    {
      o := next;
      NewObjectKeeps(blocks, ptr, weak, raw, next, types);
      blocks := blocks[o := Object(1, None, types)];
      raw := Bump(raw, Some(o));
      next := next + 1;
    }

    /** Copy construction of an object: the copy gets a counter of its own
        starting at 1 and no view; the original is untouched. */
    method CopyObject(src: Addr) returns (o: Addr)
      requires Valid() && IsObject(blocks, src)
      modifies this
      ensures Valid() && o !in old(blocks) && o != src
      ensures blocks == old(blocks)[o := Object(1, None, old(blocks[src].types))]
      ensures raw == Bump(old(raw), Some(o))
      ensures ptr == old(ptr) && weak == old(weak) && deleted == old(deleted)
      ensures OwnsStrong(o)
    {
      o := NewObject(blocks[src].types);
    }

    /** `DeletableBase::X_GetView`: the object's view, if it has one. */
    method GetView(o: Addr) returns (pv: Option<Addr>)
      requires Valid() && IsObject(blocks, o)
      ensures pv == blocks[o].view
      ensures pv.Some? ==> IsView(blocks, pv.value) && blocks[pv.value].owner == Some(o) && blocks[pv.value].ref > 0
    {
      pv := blocks[o].view;
    }

    /** `DeletableBase::X_RequireView`: the object's view, created with the
        owner's hold as its one reference if there was none. */
    method RequireView(o: Addr) returns (v: Addr)
      requires Valid() && IsObject(blocks, o)
      modifies this
      ensures Valid() && IsObject(blocks, o) && IsView(blocks, v)
      ensures blocks[o].view == Some(v) && blocks[v].owner == Some(o)
      ensures blocks == WithView(old(blocks), o, old(next))
      ensures old(blocks[o].view).Some? ==> Some(v) == old(blocks[o].view)
      ensures old(blocks[o].view).None? ==> v == old(next) && v !in old(blocks)
      ensures ptr == old(ptr) && weak == old(weak) && deleted == old(deleted) && raw == old(raw)
    {
      if blocks[o].view.Some? {
        v := blocks[o].view.value;
      } else {
        v := next;
        NewViewKeeps(blocks, ptr, weak, raw, next, o);
        blocks := WithView(blocks, o, v);
        next := next + 1;
      }
    }

    /** `DeletableBase::ReserveWeak`: make sure the object has a view. */
    method ReserveWeak(o: Addr)
      requires Valid() && IsObject(blocks, o)
      modifies this
      ensures Valid() && IsObject(blocks, o) && blocks[o].view.Some?
      ensures blocks == WithView(old(blocks), o, old(next))
      ensures ptr == old(ptr) && weak == old(weak) && deleted == old(deleted) && raw == old(raw)
    {
      var _ := RequireView(o);
    }

    /** `WeakViewTemplate::IsOwnerAlive`: the view's owner is set and its
        counter is not zero -- exactly when a live object publishes it. */
    method IsOwnerAlive(v: Addr) returns (alive: bool)
      requires Valid() && IsView(blocks, v)
      ensures alive <==> blocks[v].owner.Some?
      ensures alive <==> exists o :: IsObject(blocks, o) && blocks[o].view == Some(v)
    {
      match blocks[v].owner
      case None =>
        alive := false;
      case Some(o) =>
        alive := blocks[o].ref != 0;
    }

    /** `WeakViewTemplate::ClearOwner`. */
    method ClearOwner(v: Addr)
      requires IsView(blocks, v)
      modifies this
      ensures blocks == old(blocks)[v := View(old(blocks[v].ref), None)]
      ensures ptr == old(ptr) && weak == old(weak) && next == old(next) && deleted == old(deleted) && raw == old(raw)
    {
      blocks := blocks[v := View(blocks[v].ref, None)];
    }

    /** `delete` of a view whose counter reached zero. */
    method DeleteView(v: Addr)
      requires IsView(blocks, v) && blocks[v].ref == 0
      modifies this
      ensures blocks == old(blocks) - {v}
      ensures ptr == old(ptr) && weak == old(weak) && next == old(next) && deleted == old(deleted) && raw == old(raw)
    {
      blocks := blocks - {v};
    }

    /** The deleter on an object whose counter reached zero:
        `~DeletableBase` drops the owner's hold on the view, deleting it
        or clearing its owner, and `~RefCountBase` finds no other sharer.
        `FreedKeeps` shows the result satisfies the invariant. */
    method DeleteObject(o: Addr)
      requires Deletable(blocks, o) && blocks[o].ref == 0
      modifies this
      ensures blocks == Freed(old(blocks), o)
      ensures ptr == old(ptr) && weak == old(weak) && next == old(next) && deleted == old(deleted) + [o] && raw == old(raw)
    {
      match blocks[o].view {
        case None =>
        case Some(v) =>
          var last := DropRef(v);
          if last {
            DeleteView(v);
          } else {
            ClearOwner(v);
          }
      }
      blocks := blocks - {o};
      deleted := deleted + [o];
    }

    // --- IntrusivePtr

    /** `IntrusivePtr(nullptr)` and `IntrusivePtr(Element *)`: a new handle
        that adopts the reference the caller owns, if any. */
    method Construct(p: Option<Addr>) returns (h: Handle)
      requires Valid() && (p.Some? ==> OwnsStrong(p.value))
      modifies this
      ensures Valid() && h !in old(ptr)
      ensures ptr == old(ptr)[h := p] && raw == Spend(old(raw), p)
      ensures blocks == old(blocks) && weak == old(weak) && deleted == old(deleted)
    {
      h := next;
      AdoptPtrKeeps(blocks, ptr, weak, raw, h, p);
      ptr := ptr[h := p];
      raw := Spend(raw, p);
      next := next + 1;
    }

    /** `IntrusivePtr::Release`: the handle becomes null and the caller
        owns the reference it held. */
    method Release(h: Handle) returns (p: Option<Addr>)
      requires Valid() && h in ptr
      modifies this
      ensures Valid() && p == old(ptr[h]) && ptr == old(ptr)[h := None]
      ensures raw == Bump(old(raw), p) && (p.Some? ==> OwnsStrong(p.value))
      ensures blocks == old(blocks) && weak == old(weak) && deleted == old(deleted)
    {
      p := ptr[h];
      ReleasePtrKeeps(blocks, ptr, weak, raw, h);
      ptr := ptr[h := None];
      raw := Bump(raw, p);
    }

    /** `IntrusivePtr::X_Fork`: one more reference to the handle's object,
        owned by the caller. */
    method ForkRef(h: Handle) returns (p: Option<Addr>)
      requires Valid() && h in ptr
      modifies this
      ensures Valid() && ptr == old(ptr) && p == ptr[h]
      ensures blocks == Fork(old(blocks), p)
      ensures raw == Bump(old(raw), p) && (p.Some? ==> OwnsStrong(p.value))
      ensures weak == old(weak) && deleted == old(deleted)
    {
      p := ptr[h];
      ForkKeeps(blocks, ptr, weak, raw, next, p);
      if p.Some? {
        AddRef(p.value);
      }
      raw := Bump(raw, p);
    }

    /** Copy construction: a new handle sharing `src`'s object. */
    method Copy(src: Handle) returns (h: Handle)
      requires Valid() && src in ptr
      modifies this
      ensures Valid() && h !in old(ptr)
      ensures ptr == old(ptr)[h := old(ptr[src])]
      ensures blocks == Fork(old(blocks), old(ptr[src]))
      ensures weak == old(weak) && deleted == old(deleted) && raw == old(raw)
    {
      var p := ForkRef(src);
      h := Construct(p);
      BumpSpend(old(raw), p);
    }

    /** Move construction, also from a `UniquePtr`: the reference passes
        from `src`, which becomes null, to a new handle. */
    method Move(src: Handle) returns (h: Handle)
      requires Valid() && src in ptr
      modifies this
      ensures Valid() && h !in old(ptr)
      ensures ptr == old(ptr)[src := None][h := old(ptr[src])]
      ensures blocks == old(blocks) && weak == old(weak) && deleted == old(deleted) && raw == old(raw)
    {
      var p := Release(src);
      h := Construct(p);
      BumpSpend(old(raw), p);
    }

    /** `~IntrusivePtr`: the handle ends; its reference is dropped and the
        deleter runs if it was the last. */
    method Destroy(h: Handle)
      requires Valid() && h in ptr
      modifies this
      ensures Valid()
      ensures ptr == old(ptr) - {h} && weak == old(weak) && raw == old(raw)
      ensures blocks == DropStrong(old(blocks), old(ptr[h]))
      ensures deleted == old(deleted) + FreedBy(old(blocks), old(ptr[h]))
    {
      var p := ptr[h];
      DropStrongKeeps(blocks, ptr, weak, raw, next, h);
      RetiredDrop(blocks, deleted, next, p);
      ptr := ptr - {h};
      if p.Some? {
        var last := DropRef(p.value);
        if last {
          DeleteObject(p.value);
        }
      }
    }

    /** `IntrusivePtr::Swap`. */
    method Swap(h: Handle, k: Handle)
      requires Valid() && h in ptr && k in ptr
      modifies this
      ensures Valid() && ptr == old(ptr)[h := old(ptr[k])][k := old(ptr[h])]
      ensures blocks == old(blocks) && weak == old(weak) && deleted == old(deleted) && raw == old(raw)
    {
      SwapPtrKeeps(blocks, ptr, weak, raw, h, k);
      ptr := ptr[h := ptr[k]][k := ptr[h]];
    }

    /** `IntrusivePtr::Reset()`: swap with a null temporary, which then
        drops the old reference. */
    method Reset(h: Handle)
      requires Valid() && h in ptr
      modifies this
      ensures Valid() && ptr == old(ptr)[h := None] && weak == old(weak) && raw == old(raw)
      ensures blocks == DropStrong(old(blocks), old(ptr[h]))
      ensures deleted == old(deleted) + FreedBy(old(blocks), old(ptr[h]))
    {
      var t := Construct(None);
      SwapOut(old(ptr), h, t, None);
      Swap(t, h);
      Destroy(t);
    }

    /** `IntrusivePtr::Reset(Element *)` and `Reset(UniquePtr &&)`: adopt
        the reference the caller owns and drop the old one. */
    method ResetTo(h: Handle, p: Option<Addr>)
      requires Valid() && h in ptr && (p.Some? ==> OwnsStrong(p.value))
      modifies this
      ensures Valid() && ptr == old(ptr)[h := p] && weak == old(weak) && raw == Spend(old(raw), p)
      ensures blocks == DropStrong(old(blocks), old(ptr[h]))
      ensures deleted == old(deleted) + FreedBy(old(blocks), old(ptr[h]))
    {
      var t := Construct(p);
      SwapOut(old(ptr), h, t, p);
      Swap(t, h);
      Destroy(t);
    }

    /** Copy assignment and `Reset(const IntrusivePtr &)`: share `src`'s
        object, then drop the old reference; assigning a handle to itself
        changes nothing. */
    method ResetCopy(h: Handle, src: Handle)
      requires Valid() && h in ptr && src in ptr
      modifies this
      ensures Valid() && ptr == old(ptr)[h := old(ptr[src])] && weak == old(weak) && raw == old(raw)
      ensures blocks == DropStrong(Fork(old(blocks), old(ptr[src])), old(ptr[h]))
      ensures deleted == old(deleted) + FreedBy(Fork(old(blocks), old(ptr[src])), old(ptr[h]))
    {
      var t := Copy(src);
      SwapOut(old(ptr), h, t, old(ptr[src]));
      Swap(t, h);
      Destroy(t);
    }

    /** Move assignment and `Reset(IntrusivePtr &&)`: the reference passes
        from `src` to `h`, then the old one is dropped; moving a handle
        into itself changes nothing. */
    method ResetMove(h: Handle, src: Handle)
      requires Valid() && h in ptr && src in ptr
      modifies this
      ensures Valid() && ptr == old(ptr)[src := None][h := old(ptr[src])] && weak == old(weak) && raw == old(raw)
      ensures blocks == DropStrong(old(blocks), if src == h then None else old(ptr[h]))
      ensures deleted == old(deleted) + FreedBy(old(blocks), if src == h then None else old(ptr[h]))
    {
      var t := Move(src);
      SwapOut(old(ptr)[src := None], h, t, old(ptr[src]));
      Swap(t, h);
      Destroy(t);
    }

    /** `IntrusivePtr::IsNull`. */
    method IsNull(h: Handle) returns (n: bool)
      requires Valid() && h in ptr
      ensures n <==> ptr[h] == None
    {
      n := ptr[h].None?;
    }

    /** `IntrusivePtr::Get`: a non-null result points at a live object. */
    method Get(h: Handle) returns (p: Option<Addr>)
      requires Valid() && h in ptr
      ensures p == ptr[h]
      ensures p.Some? ==> IsObject(blocks, p.value) && blocks[p.value].ref > 0
    {
      p := ptr[h];
    }

    /** `IntrusivePtr::IsUnique`: the counter is 1, and then the handle holds
        the only reference to its object. */
    method IsUnique(h: Handle) returns (u: bool)
      requires Valid() && h in ptr
      ensures u <==> ptr[h].Some? && blocks[ptr[h].value].ref == 1
      ensures u ==> (forall k :: k in ptr && k != h ==> ptr[k] != ptr[h]) && Raw(raw, ptr[h].value) == 0
    {
      match ptr[h]
      case None =>
        u := false;
      case Some(o) =>
        CountSlot(ptr, h);
        assert Holds(blocks[o], o, ptr, weak) + Raw(raw, o) == blocks[o].ref;
        u := blocks[o].ref == 1;
        if u {
          CountOnly(ptr, h, o);
        }
    }

    /** `IntrusivePtr::GetRef`: 0 for null, else the counter, which is the
        number of handles sharing the object plus the references raw
        pointers own. */
    method GetRef(h: Handle) returns (r: nat)
      requires Valid() && h in ptr
      ensures ptr[h].None? ==> r == 0
      ensures ptr[h].Some? ==> r == blocks[ptr[h].value].ref
      ensures ptr[h].Some? ==> r == Count(ptr, ptr[h].value) + Raw(raw, ptr[h].value) && r >= 1
    {
      match ptr[h]
      case None =>
        r := 0;
      case Some(o) =>
        CountSlot(ptr, h);
        assert Holds(blocks[o], o, ptr, weak) + Raw(raw, o) == blocks[o].ref;
        r := blocks[o].ref;
    }

    /** `IntrusivePtr::GetWeakRef`: 0 without an object or a view, else the
        view's counter less the owner's hold, which is the number of weak
        references to the view. */
    method GetWeakRef(h: Handle) returns (r: nat)
      requires Valid() && h in ptr
      ensures ptr[h].None? || blocks[ptr[h].value].view.None? ==> r == 0
      ensures ptr[h].Some? && blocks[ptr[h].value].view.Some? ==>
        var v := blocks[ptr[h].value].view.value;
        IsView(blocks, v) && blocks[v].owner.Some? && r == blocks[v].ref - 1 && r == Count(weak, v) + Raw(raw, v)
    {
      match ptr[h]
      case None =>
        r := 0;
      case Some(o) =>
        match blocks[o].view
        case None =>
          r := 0;
        case Some(v) =>
          assert Holds(blocks[v], v, ptr, weak) + Raw(raw, v) == blocks[v].ref;
          r := blocks[v].ref - 1;
    }

    /** `MakeIntrusive`: a new object owned by a new handle. */
    method MakeIntrusive(types: set<nat>) returns (h: Handle, o: Addr)
      requires Valid()
      modifies this
      ensures Valid() && o !in old(blocks) && h !in old(ptr)
      ensures blocks == old(blocks)[o := Object(1, None, types)]
      ensures ptr == old(ptr)[h := Some(o)]
      ensures weak == old(weak) && deleted == old(deleted) && raw == old(raw)
    {
      o := NewObject(types);
      h := Construct(Some(o));
      BumpSpend(old(raw), Some(o));
    }

    /** `StaticPointerCast` and `ConstPointerCast`: the by-value parameter
        `src` passes its reference to the result and then ends null. */
    method StaticPointerCast(src: Handle) returns (h: Handle)
      requires Valid() && src in ptr
      modifies this
      ensures Valid() && h !in old(ptr)
      ensures ptr == (old(ptr) - {src})[h := old(ptr[src])]
      ensures blocks == old(blocks) && weak == old(weak) && deleted == old(deleted) && raw == old(raw)
    {
      var p := Release(src);
      h := Construct(p);
      BumpSpend(old(raw), p);
      DeleteAfterStore(old(ptr), src, h, p, None);
      Destroy(src);
    }

    /** `DynamicPointerCast`: when the object converts, the parameter's
        reference passes to the result; otherwise the result is null and
        the parameter drops its reference when it ends. */
    method DynamicPointerCast(src: Handle, target: nat) returns (h: Handle)
      requires Valid() && src in ptr
      modifies this
      ensures Valid() && h !in old(ptr)
      ensures ptr == (old(ptr) - {src})[h := Cast(old(blocks), old(ptr[src]), Dynamic(target))]
      ensures Cast(old(blocks), old(ptr[src]), Dynamic(target)).Some? ==> blocks == old(blocks) && deleted == old(deleted)
      ensures Cast(old(blocks), old(ptr[src]), Dynamic(target)).None? ==>
        blocks == DropStrong(old(blocks), old(ptr[src])) && deleted == old(deleted) + FreedBy(old(blocks), old(ptr[src]))
      ensures weak == old(weak) && raw == old(raw)
    {
      var test := Cast(blocks, ptr[src], Dynamic(target));
      if test.Some? {
        var _ := Release(src);
      }
      h := Construct(test);
      BumpSpend(old(raw), test);
      if test.Some? {
        DeleteAfterStore(old(ptr), src, h, test, None);
      } else {
        DeleteAfterAdd(old(ptr), src, h, test);
      }
      Destroy(src);
    }

    /** `IntrusiveBase::Share` (through `Y_ForkShared`): a new handle with
        one more reference to object `o`, or null if `o` does not convert. */
    method Share(o: Addr, c: Conversion) returns (h: Handle)
      requires Valid() && IsObject(blocks, o)
      modifies this
      ensures Valid() && h !in old(ptr)
      ensures ptr == old(ptr)[h := Cast(old(blocks), Some(o), c)]
      ensures blocks == Fork(old(blocks), Cast(old(blocks), Some(o), c))
      ensures weak == old(weak) && deleted == old(deleted) && raw == old(raw)
    {
      var p := Cast(blocks, Some(o), c);
      if p.Some? {
        ForkKeeps(blocks, ptr, weak, raw, next, p);
        AddRef(o);
        raw := Bump(raw, p);
      }
      h := Construct(p);
      BumpSpend(old(raw), p);
    }

    // --- WeakViewTemplate::LockOwner

    /** `WeakViewTemplate::LockOwner`: a new reference to the view's owner,
        owned by the caller, when the owner is set, converts and its counter
        is not zero. */
    method LockOwner(v: Addr, c: Conversion) returns (p: Option<Addr>)
      requires Valid() && IsView(blocks, v)
      modifies this
      ensures Valid() && p == Lockable(old(blocks), v, c)
      ensures blocks == Fork(old(blocks), p)
      ensures raw == Bump(old(raw), p)
      ensures ptr == old(ptr) && weak == old(weak) && deleted == old(deleted)
    {
      p := None;
      var owner := blocks[v].owner;
      if owner.Some? {
        var test := Cast(blocks, owner, c);
        if test.Some? {
          var ok := TryAddRef(test.value);
          if ok {
            p := test;
            raw := Bump(raw, p);
            assert blocks == Fork(old(blocks), p);
          }
        }
      }
      ForkKeeps(old(blocks), ptr, weak, old(raw), next, p);
    }

    // --- IntrusiveWeakPtr

    /** `IntrusiveWeakPtr::X_CreateViewFromElement`: null for null, else
        the object's view, created if need be, with one more reference
        owned by the caller. */
    method CreateViewFromElement(p: Option<Addr>) returns (pv: Option<Addr>)
      requires Valid() && (p.Some? ==> IsObject(blocks, p.value))
      modifies this
      ensures Valid() && pv == NewWeak(old(blocks), p, old(next))
      ensures blocks == AddWeak(old(blocks), p, old(next))
      ensures raw == Bump(old(raw), pv)
      ensures p.Some? ==> IsObject(blocks, p.value) && pv.Some? && blocks[p.value].view == pv && OwnsWeak(pv.value)
      ensures p.None? ==> pv.None?
      ensures ptr == old(ptr) && weak == old(weak) && deleted == old(deleted)
    {
      if p.None? {
        pv := None;
      } else {
        var v := RequireView(p.value);
        ForkKeeps(blocks, ptr, weak, raw, next, Some(v));
        AddRef(v);
        pv := Some(v);
        raw := Bump(raw, pv);
      }
    }

    /** The adopting constructor and `IntrusiveWeakPtr(nullptr)`: a new
        weak handle that takes over the caller's weak reference, if any. */
    method ConstructWeak(pv: Option<Addr>) returns (w: Handle)
      requires Valid() && (pv.Some? ==> OwnsWeak(pv.value))
      modifies this
      ensures Valid() && w !in old(weak)
      ensures weak == old(weak)[w := pv] && raw == Spend(old(raw), pv)
      ensures blocks == old(blocks) && ptr == old(ptr) && deleted == old(deleted)
    {
      w := next;
      AdoptWeakKeeps(blocks, ptr, weak, raw, w, pv);
      weak := weak[w := pv];
      raw := Spend(raw, pv);
      next := next + 1;
    }

    /** `IntrusiveWeakPtr(Element *)`: a weak handle to the object's view. */
    method WeakFromElement(p: Option<Addr>) returns (w: Handle)
      requires Valid() && (p.Some? ==> IsObject(blocks, p.value))
      modifies this
      ensures Valid() && w !in old(weak)
      ensures weak == old(weak)[w := NewWeak(old(blocks), p, old(next))]
      ensures blocks == AddWeak(old(blocks), p, old(next))
      ensures p.Some? ==> IsObject(blocks, p.value) && blocks[p.value].view == weak[w]
      ensures ptr == old(ptr) && deleted == old(deleted) && raw == old(raw)
    {
      var pv := CreateViewFromElement(p);
      w := ConstructWeak(pv);
      BumpSpend(old(raw), pv);
    }

    /** `IntrusiveWeakPtr(const IntrusivePtr &)` and `Weaken`: a weak
        handle to the view of strong handle `h`'s object. */
    method WeakFromPtr(h: Handle) returns (w: Handle)
      requires Valid() && h in ptr
      modifies this
      ensures Valid() && w !in old(weak)
      ensures weak == old(weak)[w := NewWeak(old(blocks), old(ptr[h]), old(next))]
      ensures blocks == AddWeak(old(blocks), old(ptr[h]), old(next))
      ensures ptr == old(ptr) && deleted == old(deleted) && raw == old(raw)
    {
      var p := Get(h);
      w := WeakFromElement(p);
    }

    /** `IntrusiveBase::Weaken` (through `Y_ForkWeak`): a weak handle to
        object `o`'s view, or null if `o` does not convert. */
    method Weaken(o: Addr, c: Conversion) returns (w: Handle)
      requires Valid() && IsObject(blocks, o)
      modifies this
      ensures Valid() && w !in old(weak)
      ensures weak == old(weak)[w := NewWeak(old(blocks), Cast(old(blocks), Some(o), c), old(next))]
      ensures blocks == AddWeak(old(blocks), Cast(old(blocks), Some(o), c), old(next))
      ensures ptr == old(ptr) && deleted == old(deleted) && raw == old(raw)
    {
      var p := Cast(blocks, Some(o), c);
      if p.None? {
        w := ConstructWeak(None);
      } else {
        w := WeakFromElement(p);
      }
    }

    /** `IntrusiveWeakPtr::X_Fork`: one more reference to the view, owned
        by the caller. */
    method ForkView(w: Handle) returns (pv: Option<Addr>)
      requires Valid() && w in weak
      modifies this
      ensures Valid() && weak == old(weak) && pv == weak[w]
      ensures blocks == Fork(old(blocks), pv)
      ensures raw == Bump(old(raw), pv) && (pv.Some? ==> OwnsWeak(pv.value))
      ensures ptr == old(ptr) && deleted == old(deleted)
    {
      pv := weak[w];
      ForkKeeps(blocks, ptr, weak, raw, next, pv);
      if pv.Some? {
        AddRef(pv.value);
      }
      raw := Bump(raw, pv);
    }

    /** `IntrusiveWeakPtr::X_Release`: the weak handle becomes null and the
        caller owns the weak reference it held. */
    method ReleaseWeak(w: Handle) returns (pv: Option<Addr>)
      requires Valid() && w in weak
      modifies this
      ensures Valid() && pv == old(weak[w]) && weak == old(weak)[w := None]
      ensures raw == Bump(old(raw), pv) && (pv.Some? ==> OwnsWeak(pv.value))
      ensures blocks == old(blocks) && ptr == old(ptr) && deleted == old(deleted)
    {
      pv := weak[w];
      ReleaseWeakKeeps(blocks, ptr, weak, raw, w);
      weak := weak[w := None];
      raw := Bump(raw, pv);
    }

    /** Copy construction of a weak handle. */
    method CopyWeak(src: Handle) returns (w: Handle)
      requires Valid() && src in weak
      modifies this
      ensures Valid() && w !in old(weak)
      ensures weak == old(weak)[w := old(weak[src])]
      ensures blocks == Fork(old(blocks), old(weak[src]))
      ensures ptr == old(ptr) && deleted == old(deleted) && raw == old(raw)
    {
      var pv := ForkView(src);
      w := ConstructWeak(pv);
      BumpSpend(old(raw), pv);
    }

    /** Move construction of a weak handle: `src` becomes null. */
    method MoveWeak(src: Handle) returns (w: Handle)
      requires Valid() && src in weak
      modifies this
      ensures Valid() && w !in old(weak)
      ensures weak == old(weak)[src := None][w := old(weak[src])]
      ensures blocks == old(blocks) && ptr == old(ptr) && deleted == old(deleted) && raw == old(raw)
    {
      var pv := ReleaseWeak(src);
      w := ConstructWeak(pv);
      BumpSpend(old(raw), pv);
    }

    /** `~IntrusiveWeakPtr`: the weak handle ends; the view is deleted if
        that was its last reference. */
    method DestroyWeak(w: Handle)
      requires Valid() && w in weak
      modifies this
      ensures Valid()
      ensures weak == old(weak) - {w} && ptr == old(ptr) && deleted == old(deleted) && raw == old(raw)
      ensures blocks == DropWeak(old(blocks), old(weak[w]))
    {
      var pv := weak[w];
      DropWeakKeeps(blocks, ptr, weak, raw, next, w);
      weak := weak - {w};
      if pv.Some? {
        var last := DropRef(pv.value);
        if last {
          DeleteView(pv.value);
        }
      }
    }

    /** `IntrusiveWeakPtr::Swap`. */
    method SwapWeak(w: Handle, k: Handle)
      requires Valid() && w in weak && k in weak
      modifies this
      ensures Valid() && weak == old(weak)[w := old(weak[k])][k := old(weak[w])]
      ensures blocks == old(blocks) && ptr == old(ptr) && deleted == old(deleted) && raw == old(raw)
    {
      SwapWeakKeeps(blocks, ptr, weak, raw, w, k);
      weak := weak[w := weak[k]][k := weak[w]];
    }

    /** `IntrusiveWeakPtr::Reset()`. */
    method ResetWeak(w: Handle)
      requires Valid() && w in weak
      modifies this
      ensures Valid() && weak == old(weak)[w := None]
      ensures blocks == DropWeak(old(blocks), old(weak[w]))
      ensures ptr == old(ptr) && deleted == old(deleted) && raw == old(raw)
    {
      var t := ConstructWeak(None);
      SwapOut(old(weak), w, t, None);
      SwapWeak(t, w);
      DestroyWeak(t);
    }

    /** `IntrusiveWeakPtr::Reset(Element *)`: point at the object's view,
        then drop the old weak reference. */
    method ResetWeakTo(w: Handle, p: Option<Addr>)
      requires Valid() && w in weak && (p.Some? ==> IsObject(blocks, p.value))
      modifies this
      ensures Valid() && weak == old(weak)[w := NewWeak(old(blocks), p, old(next))]
      ensures blocks == DropWeak(AddWeak(old(blocks), p, old(next)), old(weak[w]))
      ensures ptr == old(ptr) && deleted == old(deleted) && raw == old(raw)
    {
      var t := WeakFromElement(p);
      SwapOut(old(weak), w, t, weak[t]);
      SwapWeak(t, w);
      DestroyWeak(t);
    }

    /** `IntrusiveWeakPtr::Reset(const IntrusivePtr &)`. */
    method ResetWeakFromPtr(w: Handle, h: Handle)
      requires Valid() && w in weak && h in ptr
      modifies this
      ensures Valid() && weak == old(weak)[w := NewWeak(old(blocks), old(ptr[h]), old(next))]
      ensures blocks == DropWeak(AddWeak(old(blocks), old(ptr[h]), old(next)), old(weak[w]))
      ensures ptr == old(ptr) && deleted == old(deleted) && raw == old(raw)
    {
      var p := Get(h);
      ResetWeakTo(w, p);
    }

    /** Copy assignment and `Reset(const IntrusiveWeakPtr &)`. */
    method ResetWeakCopy(w: Handle, src: Handle)
      requires Valid() && w in weak && src in weak
      modifies this
      ensures Valid() && weak == old(weak)[w := old(weak[src])]
      ensures blocks == DropWeak(Fork(old(blocks), old(weak[src])), old(weak[w]))
      ensures ptr == old(ptr) && deleted == old(deleted) && raw == old(raw)
    {
      var t := CopyWeak(src);
      SwapOut(old(weak), w, t, old(weak[src]));
      SwapWeak(t, w);
      DestroyWeak(t);
    }

    /** Move assignment and `Reset(IntrusiveWeakPtr &&)`. */
    method ResetWeakMove(w: Handle, src: Handle)
      requires Valid() && w in weak && src in weak
      modifies this
      ensures Valid() && weak == old(weak)[src := None][w := old(weak[src])]
      ensures blocks == DropWeak(old(blocks), if src == w then None else old(weak[w]))
      ensures ptr == old(ptr) && deleted == old(deleted) && raw == old(raw)
    {
      var t := MoveWeak(src);
      SwapOut(old(weak)[src := None], w, t, old(weak[src]));
      SwapWeak(t, w);
      DestroyWeak(t);
    }

    /** `IntrusiveWeakPtr::IsAlive`: exactly when a live object still
        publishes the handle's view. */
    method IsAlive(w: Handle) returns (alive: bool)
      requires Valid() && w in weak
      ensures alive <==> weak[w].Some? && blocks[weak[w].value].owner.Some?
      ensures alive <==> exists o :: IsObject(blocks, o) && weak[w].Some? && blocks[o].view == weak[w]
    {
      match weak[w]
      case None =>
        alive := false;
      case Some(v) =>
        alive := IsOwnerAlive(v);
    }

    /** `IntrusiveWeakPtr::GetWeakRef` as written: the view's counter less
        one, whether or not the owner still holds the view. */
    method WeakGetWeakRef(w: Handle) returns (r: nat)
      requires Valid() && w in weak
      ensures weak[w].None? ==> r == 0
      ensures weak[w].Some? ==> r == blocks[weak[w].value].ref - 1
    {
      match weak[w]
      case None =>
        r := 0;
      case Some(v) =>
        CountSlot(weak, w);
        r := blocks[v].ref - 1;
    }

    /** The weak reference count as intended: the view's counter less the
        owner's hold only while the owner holds it, which is the number of
        weak references to the view; it equals the strong side's
        `GetWeakRef` while the owner lives. */
    method WeakRefCount(w: Handle) returns (r: nat)
      requires Valid() && w in weak
      ensures weak[w].None? ==> r == 0
      ensures weak[w].Some? ==> r == Count(weak, weak[w].value) + Raw(raw, weak[w].value) && r >= 1
      ensures weak[w].Some? ==>
        r == blocks[weak[w].value].ref - (if blocks[weak[w].value].owner.Some? then 1 else 0)
    {
      match weak[w]
      case None =>
        r := 0;
      case Some(v) =>
        CountSlot(weak, w);
        assert Holds(blocks[v], v, ptr, weak) + Raw(raw, v) == blocks[v].ref;
        r := blocks[v].ref - (if blocks[v].owner.Some? then 1 else 0);
    }

    /** `IntrusiveWeakPtr::Lock`: a new strong handle to the owner, null
        when the handle is null or `LockOwner` fails. */
    method Lock(w: Handle, c: Conversion) returns (h: Handle)
      requires Valid() && w in weak
      modifies this
      ensures Valid() && h !in old(ptr)
      ensures old(weak[w]).None? ==> ptr == old(ptr)[h := None] && blocks == old(blocks)
      ensures old(weak[w]).Some? ==>
        var p := Lockable(old(blocks), old(weak[w]).value, c);
        ptr == old(ptr)[h := p] && blocks == Fork(old(blocks), p)
      ensures weak == old(weak) && deleted == old(deleted) && raw == old(raw)
      ensures ptr[h].Some? ==> IsObject(blocks, ptr[h].value) && blocks[ptr[h].value].view == weak[w]
    {
      match weak[w]
      case None =>
        h := Construct(None);
      case Some(v) =>
        var p := LockOwner(v, c);
        h := Construct(p);
        BumpSpend(old(raw), p);
    }
  }

  /** A weak handle that outlives its object: once the object dies the
      view's counter holds only the weak handle's reference, and
      `WeakGetWeakRef` reports 0 weak references while one exists;
      `WeakRefCount` reports 1. */
  method WeakRefAfterOwnerDies() returns (asWritten: nat, corrected: nat)
    ensures asWritten == 0 && corrected == 1
  {
    var heap := new Heap();
    var h, o := heap.MakeIntrusive({});
    var w := heap.WeakFromPtr(h);
    heap.Destroy(h);
    asWritten := heap.WeakGetWeakRef(w);
    corrected := heap.WeakRefCount(w);
  }
}
