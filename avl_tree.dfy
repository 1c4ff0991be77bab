/** The lookups and the insertion-slot choice of the intrusive AVL tree. A
    tree is a value; a node is named by its position in the in-order
    sequence, which is what the `pPrev`/`pNext` threading walks, and "null"
    is `None`. The user comparator is modelled as the order of integer keys:
    a node compares less than, equal to or greater than a key (or another
    node) as its key does. */
module AvlTree {
  import opened Machine

  datatype Tree = Nil | Node(left: Tree, key: int, height: nat, right: Tree)

  /** Which child pointer (`pLeft` or `pRight`) a new node is linked through. */
  datatype Side = Left | Right

  /** The number of nodes. */
  function Size(t: Tree): nat
  {
    if t.Nil? then 0 else Size(t.left) + 1 + Size(t.right)
  }

  /** The keys in in-order (`pPrev`/`pNext`) order. */
  function Inorder(t: Tree): (s: seq<int>)
    ensures |s| == Size(t)
  {
    match t
    case Nil => []
    case Node(l, k, _, r) => Inorder(l) + [k] + Inorder(r)
  }

  /** The tree is ordered by the comparator; equal keys may repeat. */
  ghost predicate Sorted(s: seq<int>)
  {
    forall i, j :: 0 <= i < j < |s| ==> s[i] <= s[j]
  }

  function HeightOf(t: Tree): nat
  {
    if t.Nil? then 0 else t.height
  }

  /** Every `uHeight` is one more than the taller child's. */
  ghost predicate HeightsOk(t: Tree)
  {
    match t
    case Nil => true
    case Node(l, _, h, r) =>
      HeightsOk(l) && HeightsOk(r) && h == 1 + (if HeightOf(l) < HeightOf(r) then HeightOf(r) else HeightOf(l))
  }

  /** The node at in-order position `p`, with its subtrees. */
  function SubtreeAt(t: Tree, p: nat): (n: Tree)
    requires p < Size(t)
    ensures n.Node? && Size(n.left) <= p && p + 1 + Size(n.right) <= Size(t)
    decreases t
  {
    var l := Size(t.left);
    if p < l then SubtreeAt(t.left, p)
    else if p == l then t
    else SubtreeAt(t.right, p - l - 1)
  }

  function Child(n: Tree, side: Side): Tree
    requires n.Node?
  {
    if side == Left then n.left else n.right
  }

  /** A position, or null past the last node. */
  function NodeOrNull(s: seq<int>, i: nat): Option<nat>
  {
    if i < |s| then Some(i) else None
  }

  function Shift(r: Option<nat>, d: nat): Option<nat>
  {
    if r.None? then None else Some(r.value + d)
  }

  /** The first position from `i` on whose key is not less than `k`, by a
      linear scan. */
  function FirstNotLessFrom(s: seq<int>, k: int, i: nat): (r: nat)
    requires i <= |s|
    ensures i <= r <= |s|
    ensures forall j :: i <= j < r ==> s[j] < k
    ensures r < |s| ==> s[r] >= k
    decreases |s| - i
  {
    if i == |s| || s[i] >= k then i else FirstNotLessFrom(s, k, i + 1)
  }

  /** The first position whose key is not less than `k`. */
  function FirstNotLess(s: seq<int>, k: int): (i: nat)
    ensures i <= |s|
    ensures forall j :: 0 <= j < i ==> s[j] < k
    ensures i < |s| ==> s[i] >= k
  {
    FirstNotLessFrom(s, k, 0)
  }

  /** The first position from `i` on whose key is greater than `k`, by a
      linear scan. */
  function FirstGreaterFrom(s: seq<int>, k: int, i: nat): (r: nat)
    requires i <= |s|
    ensures i <= r <= |s|
    ensures forall j :: i <= j < r ==> s[j] <= k
    ensures r < |s| ==> s[r] > k
    decreases |s| - i
  {
    if i == |s| || s[i] > k then i else FirstGreaterFrom(s, k, i + 1)
  }

  /** The first position whose key is greater than `k`. */
  function FirstGreater(s: seq<int>, k: int): (i: nat)
    ensures i <= |s|
    ensures forall j :: 0 <= j < i ==> s[j] <= k
    ensures i < |s| ==> s[i] > k
  {
    FirstGreaterFrom(s, k, 0)
  }

  /** A position that splits the keys into those less than `k` and a first
      one that is not is `FirstNotLess`. */
  lemma FirstNotLessIs(s: seq<int>, k: int, i: nat)
    requires i <= |s| && (forall j :: 0 <= j < i ==> s[j] < k) && (i < |s| ==> s[i] >= k)
    ensures FirstNotLess(s, k) == i
  {
  }

  lemma FirstGreaterIs(s: seq<int>, k: int, i: nat)
    requires i <= |s| && (forall j :: 0 <= j < i ==> s[j] <= k) && (i < |s| ==> s[i] > k)
    ensures FirstGreater(s, k) == i
  {
  }

  /** In a sorted sequence, a key between two neighbours is inserted between
      them: after every key not greater than it. */
  lemma FirstGreaterBetween(s: seq<int>, k: int, i: nat)
    requires Sorted(s) && i <= |s|
    requires 0 < i ==> s[i - 1] <= k
    requires i < |s| ==> k < s[i]
    ensures FirstGreater(s, k) == i
  {
    forall j | 0 <= j < i
      ensures s[j] <= k
    {
      assert s[j] <= s[i - 1];
    }
    FirstGreaterIs(s, k, i);
  }

  /** The in-order sequence of a node: its left keys, its key, its right keys,
      each part sorted and ordered against the key. */
  lemma SortedParts(a: seq<int>, x: int, b: seq<int>)
    requires Sorted(a + [x] + b)
    ensures Sorted(a) && Sorted(b)
    ensures forall i :: 0 <= i < |a| ==> a[i] <= x
    ensures forall i :: 0 <= i < |b| ==> x <= b[i]
  {
    var s := a + [x] + b;
    forall i, j | 0 <= i < j < |b|
      ensures b[i] <= b[j]
    {
      assert b[i] == s[|a| + 1 + i] && b[j] == s[|a| + 1 + j];
    }
    forall i | 0 <= i < |a|
      ensures a[i] <= x
    {
      assert a[i] == s[i] && x == s[|a|];
    }
    forall i | 0 <= i < |b|
      ensures x <= b[i]
    {
      assert b[i] == s[|a| + 1 + i] && x == s[|a|];
    }
    forall i, j | 0 <= i < j < |a|
      ensures a[i] <= a[j]
    {
      assert a[i] == s[i] && a[j] == s[j];
    }
  }

  /** On the in-order sequence of a node, the first key not less than `k`
      is found in the left keys, unless the node's own key is less than
      `k`, and then among the right keys. */
  lemma FirstNotLessStep(a: seq<int>, x: int, b: seq<int>, k: int)
    requires Sorted(a + [x] + b)
    ensures FirstNotLess(a + [x] + b, k) == if x < k then |a| + 1 + FirstNotLess(b, k) else FirstNotLess(a, k)
  {
    var s := a + [x] + b;
    SortedParts(a, x, b);
    if x < k {
      var f := FirstNotLess(b, k);
      forall j | 0 <= j < |a| + 1 + f
        ensures s[j] < k
      {
        if j < |a| {
          assert s[j] == a[j];
        } else if j > |a| {
          assert s[j] == b[j - |a| - 1];
        }
      }
      if f < |b| {
        assert s[|a| + 1 + f] == b[f];
      }
      FirstNotLessIs(s, k, |a| + 1 + f);
    } else {
      var f := FirstNotLess(a, k);
      forall j | 0 <= j < f
        ensures s[j] < k
      {
        assert s[j] == a[j];
      }
      if f < |a| {
        assert s[f] == a[f];
      }
      FirstNotLessIs(s, k, f);
    }
  }

  /** The same for the first key greater than `k`: among the right keys
      unless the node's own key is greater than `k`. */
  lemma FirstGreaterStep(a: seq<int>, x: int, b: seq<int>, k: int)
    requires Sorted(a + [x] + b)
    ensures FirstGreater(a + [x] + b, k) == if x <= k then |a| + 1 + FirstGreater(b, k) else FirstGreater(a, k)
  {
    var s := a + [x] + b;
    SortedParts(a, x, b);
    if x <= k {
      var f := FirstGreater(b, k);
      forall j | 0 <= j < |a| + 1 + f
        ensures s[j] <= k
      {
        if j < |a| {
          assert s[j] == a[j];
        } else if j > |a| {
          assert s[j] == b[j - |a| - 1];
        }
      }
      if f < |b| {
        assert s[|a| + 1 + f] == b[f];
      }
      FirstGreaterIs(s, k, |a| + 1 + f);
    } else {
      var f := FirstGreater(a, k);
      forall j | 0 <= j < f
        ensures s[j] <= k
      {
        assert s[j] == a[j];
      }
      if f < |a| {
        assert s[f] == a[f];
      }
      FirstGreaterIs(s, k, f);
    }
  }

  /** The node at position `p` holds the `p`-th key. */
  lemma {:induction false} KeyAt(t: Tree, p: nat)
    requires p < Size(t)
    ensures Inorder(t)[p] == SubtreeAt(t, p).key
    decreases t
  {
    var l := Size(t.left);
    assert Inorder(t) == Inorder(t.left) + [t.key] + Inorder(t.right);
    if p < l {
      KeyAt(t.left, p);
    } else if p > l {
      KeyAt(t.right, p - l - 1);
    }
  }

  /** The first node has no left child and the last no right child. */
  lemma {:induction false} Extremes(t: Tree)
    requires t.Node?
    ensures SubtreeAt(t, 0).left == Nil
    ensures SubtreeAt(t, Size(t) - 1).right == Nil
    decreases t
  {
    if t.left.Node? {
      Extremes(t.left);
    }
    if t.right.Node? {
      Extremes(t.right);
    }
  }

  lemma {:induction false} SubtreeHeight(t: Tree, p: nat)
    requires HeightsOk(t) && p < Size(t)
    ensures SubtreeAt(t, p).height <= HeightOf(t)
    decreases t
  {
    var l := Size(t.left);
    if p < l {
      SubtreeHeight(t.left, p);
    } else if p > l {
      SubtreeHeight(t.right, p - l - 1);
    }
  }

  /** Of two in-order neighbours, one is an ancestor of the other: either
      the first is the lower one and has no right child, or the second is
      and has no left child. Heights tell which. */
  lemma {:induction false} AdjacentNodes(t: Tree, p: nat)
    requires HeightsOk(t) && p + 1 < Size(t)
    ensures var a, b := SubtreeAt(t, p), SubtreeAt(t, p + 1);
      || (a.right == Nil && a.height < b.height)
      || (b.left == Nil && b.height < a.height)
    decreases t
  {
    var l := Size(t.left);
    if p + 1 < l {
      AdjacentNodes(t.left, p);
    } else if p + 1 == l {
      Extremes(t.left);
      SubtreeHeight(t.left, p);
    } else if p == l {
      Extremes(t.right);
      SubtreeHeight(t.right, 0);
    } else {
      AdjacentNodes(t.right, p - l - 1);
    }
  }

  /** The node the descent of `MCF_AvlLowerBound` remembers last: going
      right past nodes less than `k`, and left from the others, each of
      which is a candidate until a later one replaces it. */
  function LowerBoundIn(t: Tree, k: int): Option<nat>
  {
    match t
    case Nil => None
    case Node(l, x, _, r) =>
      if x < k then Shift(LowerBoundIn(r, k), Size(l) + 1)
      else if LowerBoundIn(l, k).Some? then LowerBoundIn(l, k)
      else Some(Size(l))
  }

  /** One node of the descent on the in-order sequence: from the answers
      for the left keys `a` and the right keys `b`, the answer for
      `a + [x] + b`. */
  lemma LowerBoundNodeStep(a: seq<int>, x: int, b: seq<int>, k: int, ra: Option<nat>, rb: Option<nat>)
    requires Sorted(a + [x] + b)
    requires ra == NodeOrNull(a, FirstNotLess(a, k)) && rb == NodeOrNull(b, FirstNotLess(b, k))
    ensures NodeOrNull(a + [x] + b, FirstNotLess(a + [x] + b, k)) ==
      if x < k then Shift(rb, |a| + 1) else if ra.Some? then ra else Some(|a|)
  {
    FirstNotLessStep(a, x, b, k);
  }

  /** On an ordered tree the descent finds the first node not less than `k`. */
  lemma {:induction false} LowerBoundInOrder(t: Tree, k: int)
    requires Sorted(Inorder(t))
    ensures LowerBoundIn(t, k) == NodeOrNull(Inorder(t), FirstNotLess(Inorder(t), k))
    decreases t
  {
    if t.Node? {
      var a, x, b := Inorder(t.left), t.key, Inorder(t.right);
      assert Inorder(t) == a + [x] + b;
      SortedParts(a, x, b);
      LowerBoundInOrder(t.left, k);
      LowerBoundInOrder(t.right, k);
      LowerBoundNodeStep(a, x, b, k, LowerBoundIn(t.left, k), LowerBoundIn(t.right, k));
    }
  }

  /** `MCF_AvlLowerBound`: descends, remembering the last node not less than
      `k`; the result is the first such node in order, or null. */
  method LowerBound(t: Tree, k: int) returns (r: Option<nat>)
    requires Sorted(Inorder(t))
    ensures r == LowerBoundIn(t, k)
    ensures r == NodeOrNull(Inorder(t), FirstNotLess(Inorder(t), k))
  {
    var cur: Tree, lo: nat := t, 0;
    r := None;
    while cur.Node?
      invariant LowerBoundIn(t, k) == if LowerBoundIn(cur, k).Some? then Shift(LowerBoundIn(cur, k), lo) else r
      decreases cur
    {
      var m := lo + Size(cur.left);
      if cur.key < k {
        lo, cur := m + 1, cur.right;
      } else {
        r := Some(m);
        cur := cur.left;
      }
    }
    LowerBoundInOrder(t, k);
  }

  /** The node the descent of `MCF_AvlUpperBound` remembers last: as
      `LowerBoundIn`, but going right past equal nodes too. */
  function UpperBoundIn(t: Tree, k: int): Option<nat>
  {
    match t
    case Nil => None
    case Node(l, x, _, r) =>
      if x <= k then Shift(UpperBoundIn(r, k), Size(l) + 1)
      else if UpperBoundIn(l, k).Some? then UpperBoundIn(l, k)
      else Some(Size(l))
  }

  /** One node of the descent on the in-order sequence: from the answers
      for the left keys `a` and the right keys `b`, the answer for
      `a + [x] + b`. */
  lemma UpperBoundNodeStep(a: seq<int>, x: int, b: seq<int>, k: int, ra: Option<nat>, rb: Option<nat>)
    requires Sorted(a + [x] + b)
    requires ra == NodeOrNull(a, FirstGreater(a, k)) && rb == NodeOrNull(b, FirstGreater(b, k))
    ensures NodeOrNull(a + [x] + b, FirstGreater(a + [x] + b, k)) ==
      if x <= k then Shift(rb, |a| + 1) else if ra.Some? then ra else Some(|a|)
  {
    FirstGreaterStep(a, x, b, k);
  }

  /** On an ordered tree the descent finds the first node greater than `k`. */
  lemma {:induction false} UpperBoundInOrder(t: Tree, k: int)
    requires Sorted(Inorder(t))
    ensures UpperBoundIn(t, k) == NodeOrNull(Inorder(t), FirstGreater(Inorder(t), k))
    decreases t
  {
    if t.Node? {
      var a, x, b := Inorder(t.left), t.key, Inorder(t.right);
      assert Inorder(t) == a + [x] + b;
      SortedParts(a, x, b);
      UpperBoundInOrder(t.left, k);
      UpperBoundInOrder(t.right, k);
      UpperBoundNodeStep(a, x, b, k, UpperBoundIn(t.left, k), UpperBoundIn(t.right, k));
    }
  }

  /** `MCF_AvlUpperBound`: as `LowerBound`, but skipping equal nodes too; the
      result is the first node greater than `k`, or null. */
  method UpperBound(t: Tree, k: int) returns (r: Option<nat>)
    requires Sorted(Inorder(t))
    ensures r == UpperBoundIn(t, k)
    ensures r == NodeOrNull(Inorder(t), FirstGreater(Inorder(t), k))
  {
    var cur: Tree, lo: nat := t, 0;
    r := None;
    while cur.Node?
      invariant UpperBoundIn(t, k) == if UpperBoundIn(cur, k).Some? then Shift(UpperBoundIn(cur, k), lo) else r
      decreases cur
    {
      var m := lo + Size(cur.left);
      if cur.key <= k {
        lo, cur := m + 1, cur.right;
      } else {
        r := Some(m);
        cur := cur.left;
      }
    }
    UpperBoundInOrder(t, k);
  }

  /** The node `MCF_AvlFind`'s descent stops at: the first node on the
      search path that compares equal. */
  function FindIn(t: Tree, k: int): Option<nat>
  {
    match t
    case Nil => None
    case Node(l, x, _, r) =>
      if x < k then Shift(FindIn(r, k), Size(l) + 1)
      else if x > k then FindIn(l, k)
      else Some(Size(l))
  }

  /** One node of the search on the in-order sequence: given answers for
      the left keys `a` and the right keys `b` that find `k` exactly when it
      is there, the node's answer does so for `a + [x] + b`. */
  lemma FindStep(a: seq<int>, x: int, b: seq<int>, k: int, ra: Option<nat>, rb: Option<nat>)
    requires Sorted(a + [x] + b)
    requires ra.Some? ==> ra.value < |a| && a[ra.value] == k
    requires ra.None? <==> k !in a
    requires rb.Some? ==> rb.value < |b| && b[rb.value] == k
    requires rb.None? <==> k !in b
    ensures var s, r := a + [x] + b, if x < k then Shift(rb, |a| + 1) else if x > k then ra else Some(|a|);
      && (r.Some? ==> r.value < |s| && s[r.value] == k)
      && (r.None? <==> k !in s)
  {
    var s := a + [x] + b;
    SortedParts(a, x, b);
    if x < k {
      if rb.Some? {
        assert s[|a| + 1 + rb.value] == b[rb.value];
      } else {
        assert k !in a;
      }
    } else if x > k {
      if ra.Some? {
        assert s[ra.value] == a[ra.value];
      } else {
        assert k !in b;
      }
    } else {
      assert s[|a|] == x;
    }
  }

  /** On an ordered tree the search finds a node equal to `k`, and finds
      none exactly when no key equals `k`. */
  lemma {:induction false} FindInOrder(t: Tree, k: int)
    requires Sorted(Inorder(t))
    ensures FindIn(t, k).Some? ==> FindIn(t, k).value < Size(t) && Inorder(t)[FindIn(t, k).value] == k
    ensures FindIn(t, k).None? <==> k !in Inorder(t)
    decreases t
  {
    if t.Node? {
      var a, x, b := Inorder(t.left), t.key, Inorder(t.right);
      assert Inorder(t) == a + [x] + b;
      SortedParts(a, x, b);
      FindInOrder(t.left, k);
      FindInOrder(t.right, k);
      FindStep(a, x, b, k, FindIn(t.left, k), FindIn(t.right, k));
    }
  }

  /** `MCF_AvlFind`: a node equal to `k`, and null exactly when there is none. */
  method Find(t: Tree, k: int) returns (r: Option<nat>)
    requires Sorted(Inorder(t))
    ensures r == FindIn(t, k)
    ensures r.Some? ==> r.value < Size(t) && Inorder(t)[r.value] == k
    ensures r.None? <==> k !in Inorder(t)
  {
    var cur: Tree, lo: nat := t, 0;
    while cur.Node?
      invariant FindIn(t, k) == Shift(FindIn(cur, k), lo)
      decreases cur
    {
      var m := lo + Size(cur.left);
      if cur.key < k {
        lo, cur := m + 1, cur.right;
      } else if cur.key > k {
        cur := cur.left;
      } else {
        FindInOrder(t, k);
        return Some(m);
      }
    }
    FindInOrder(t, k);
    r := None;
  }

  /** The first loop of `MCF_AvlEqualRange`: from node `n`, follow left
      children while they do not compare less than `k`; the in-order
      position within `n` of where it stops. */
  function SpineBegin(n: Tree, k: int): nat
    requires n.Node?
  {
    if n.left.Nil? || n.left.key < k then Size(n.left) else SpineBegin(n.left, k)
  }

  /** The second loop: follow right children while they do not compare
      greater than `k`. */
  function SpineEnd(n: Tree, k: int): nat
    requires n.Node?
  {
    if n.right.Nil? || n.right.key > k then Size(n.left)
    else Size(n.left) + 1 + SpineEnd(n.right, k)
  }

  /** From a node equal to `k` in an ordered subtree, the left spine walk
      stops at a node equal to `k`. */
  lemma {:induction false} SpineBeginEqual(n: Tree, k: int)
    requires n.Node? && n.key == k && Sorted(Inorder(n))
    ensures SpineBegin(n, k) < Size(n) && Inorder(n)[SpineBegin(n, k)] == k
    decreases n
  {
    var a, b := Inorder(n.left), Inorder(n.right);
    var s := a + [n.key] + b;
    assert Inorder(n) == s;
    assert s[|a|] == k;
    SortedParts(a, n.key, b);
    if !(n.left.Nil? || n.left.key < k) {
      KeyAt(n.left, Size(n.left.left));
      assert a[Size(n.left.left)] == n.left.key;
      SpineBeginEqual(n.left, k);
      assert s[SpineBegin(n.left, k)] == a[SpineBegin(n.left, k)];
    }
  }

  /** From a node equal to `k` in an ordered subtree, the right spine walk
      stops at a node equal to `k`. */
  lemma {:induction false} SpineEndEqual(n: Tree, k: int)
    requires n.Node? && n.key == k && Sorted(Inorder(n))
    ensures SpineEnd(n, k) < Size(n) && Inorder(n)[SpineEnd(n, k)] == k
    decreases n
  {
    var a, b := Inorder(n.left), Inorder(n.right);
    var s := a + [n.key] + b;
    assert Inorder(n) == s;
    assert s[|a|] == k;
    SortedParts(a, n.key, b);
    if !(n.right.Nil? || n.right.key > k) {
      KeyAt(n.right, Size(n.right.left));
      assert b[Size(n.right.left)] == n.right.key;
      SpineEndEqual(n.right, k);
      assert s[|a| + 1 + SpineEnd(n.right, k)] == b[SpineEnd(n.right, k)];
    }
  }

  function ShiftPair(r: Option<(nat, nat)>, d: nat): Option<(nat, nat)>
  {
    if r.None? then None else Some((r.value.0 + d, r.value.1 + d))
  }

  /** The positions the two spine walks of `MCF_AvlEqualRange` stop at,
      started from the node the `MCF_AvlFind` descent stops at; null when
      that descent finds nothing. */
  function SpineFind(t: Tree, k: int): Option<(nat, nat)>
  {
    match t
    case Nil => None
    case Node(l, x, _, r) =>
      if x < k then ShiftPair(SpineFind(r, k), Size(l) + 1)
      else if x > k then SpineFind(l, k)
      else Some((SpineBegin(t, k), SpineEnd(t, k)))
  }

  /** What `MCF_AvlEqualRange` returns: null twice when `Find` fails, else
      where the left spine walk stops, and the `pNext` of where the right
      one stops. */
  function SpineRange(t: Tree, k: int): (Option<nat>, Option<nat>)
  {
    var f := SpineFind(t, k);
    if f.None? then (None, None) else (Some(f.value.0), NodeOrNull(Inorder(t), f.value.1 + 1))
  }

  /** `FindIn` names a node of the tree, and `SpineFind` finds something
      exactly when it does. */
  lemma {:induction false} FindInNode(t: Tree, k: int)
    ensures FindIn(t, k).None? <==> SpineFind(t, k).None?
    ensures FindIn(t, k).Some? ==> FindIn(t, k).value < Size(t)
    decreases t
  {
    if t.Node? {
      FindInNode(t.left, k);
      FindInNode(t.right, k);
    }
  }

  /** `FindIn` names a node, and `SpineFind` walks the spines of that
      very node. */
  ghost predicate WalksFound(t: Tree, k: int)
  {
    && FindIn(t, k).Some? && FindIn(t, k).value < Size(t)
    && var p := FindIn(t, k).value; var n := SubtreeAt(t, p); var lo := p - Size(n.left);
       SpineFind(t, k) == Some((lo + SpineBegin(n, k), lo + SpineEnd(n, k)))
  }

  lemma WalksFoundRight(t: Tree, k: int)
    requires t.Node? && t.key < k && WalksFound(t.right, k)
    ensures WalksFound(t, k)
  {
    var l, q := Size(t.left), FindIn(t.right, k).value;
    var p, n := q + l + 1, SubtreeAt(t.right, q);
    assert FindIn(t, k) == Some(p);
    assert p - l - 1 == q;
    assert SubtreeAt(t, p) == n;
    var lo := q - Size(n.left);
    assert p - Size(n.left) == lo + l + 1;
    assert SpineFind(t, k) == ShiftPair(SpineFind(t.right, k), l + 1);
  }

  lemma WalksFoundLeft(t: Tree, k: int)
    requires t.Node? && t.key > k && WalksFound(t.left, k)
    ensures WalksFound(t, k)
  {
    var q := FindIn(t.left, k).value;
    assert SubtreeAt(t, q) == SubtreeAt(t.left, q);
  }

  lemma {:induction false} SpineFindAt(t: Tree, k: int)
    requires FindIn(t, k).Some?
    ensures WalksFound(t, k)
    decreases t
  {
    if t.key < k {
      SpineFindAt(t.right, k);
      WalksFoundRight(t, k);
    } else if t.key > k {
      SpineFindAt(t.left, k);
      WalksFoundLeft(t, k);
    } else {
      assert SubtreeAt(t, Size(t.left)) == t;
    }
  }

  /** Both positions compare equal to `k`, and there are none exactly when
      no key equals `k`. */
  ghost predicate PairFinds(s: seq<int>, k: int, r: Option<(nat, nat)>)
  {
    && (r.None? <==> k !in s)
    && (r.Some? ==> r.value.0 < |s| && r.value.1 < |s| && s[r.value.0] == k && s[r.value.1] == k)
  }

  /** One node of `SpineFind` on the in-order sequence. */
  lemma SpineStep(a: seq<int>, x: int, b: seq<int>, k: int, ra: Option<(nat, nat)>, rb: Option<(nat, nat)>, rn: Option<(nat, nat)>)
    requires Sorted(a + [x] + b)
    requires PairFinds(a, k, ra) && PairFinds(b, k, rb)
    requires x == k ==> PairFinds(a + [x] + b, k, rn)
    ensures PairFinds(a + [x] + b, k, if x < k then ShiftPair(rb, |a| + 1) else if x > k then ra else rn)
  {
    var s := a + [x] + b;
    SortedParts(a, x, b);
    if x < k {
      if rb.Some? {
        assert s[|a| + 1 + rb.value.0] == b[rb.value.0];
        assert s[|a| + 1 + rb.value.1] == b[rb.value.1];
      } else {
        assert k !in a;
      }
    } else if x > k {
      if ra.Some? {
        assert s[ra.value.0] == a[ra.value.0];
        assert s[ra.value.1] == a[ra.value.1];
      } else {
        assert k !in b;
      }
    }
  }

  /** On an ordered tree both spine walks stop at nodes equal to `k`. */
  lemma {:induction false} SpineFindOrder(t: Tree, k: int)
    requires Sorted(Inorder(t))
    ensures PairFinds(Inorder(t), k, SpineFind(t, k))
    decreases t
  {
    if t.Node? {
      var a, x, b := Inorder(t.left), t.key, Inorder(t.right);
      assert Inorder(t) == a + [x] + b;
      SortedParts(a, x, b);
      SpineFindOrder(t.left, k);
      SpineFindOrder(t.right, k);
      if x == k {
        SpineBeginEqual(t, k);
        SpineEndEqual(t, k);
      }
      SpineStep(a, x, b, k, SpineFind(t.left, k), SpineFind(t.right, k), if x == k then Some((SpineBegin(t, k), SpineEnd(t, k))) else None);
    }
  }

  /** What the spine walks do promise: `begin` is null exactly when no key
      equals `k`, and otherwise compares equal, and `end` is null or follows
      a node that compares equal. */
  ghost predicate SpineRangeEqualKeys(t: Tree, k: int)
  {
    var (begin, end) := SpineRange(t, k);
    && (begin.None? <==> k !in Inorder(t))
    && (begin.None? ==> end.None?)
    && (begin.Some? ==> begin.value < Size(t) && Inorder(t)[begin.value] == k)
    && (end.Some? ==> 0 < end.value < Size(t) && Inorder(t)[end.value - 1] == k)
  }

  lemma SpinePairsEqual(t: Tree, k: int)
    requires PairFinds(Inorder(t), k, SpineFind(t, k))
    ensures SpineRangeEqualKeys(t, k)
  {
  }

  /** On an ordered tree the spine walks keep that promise. */
  lemma SpineRangeEqual(t: Tree, k: int)
    requires Sorted(Inorder(t))
    ensures SpineRangeEqualKeys(t, k)
  {
    SpineFindOrder(t, k);
    SpinePairsEqual(t, k);
  }

  /** `MCF_AvlEqualRange` as written. Both ends are found only along the
      spines below `Find`'s node, so `begin` compares equal and `end` follows
      a node that compares equal, but equal nodes off those spines can be
      missed (see `SpineRangeMissesEqual`). */
  method EqualRangeAsWritten(t: Tree, k: int) returns (begin: Option<nat>, end: Option<nat>)
    requires Sorted(Inorder(t))
    ensures (begin, end) == SpineRange(t, k)
  {
    FindInNode(t, k);
    var top := Find(t, k);
    if top.None? {
      return None, None;
    }
    SpineFindAt(t, k);
    var p := top.value;
    var n := SubtreeAt(t, p);
    var lo := p - Size(n.left);
    var cur := n;
    while cur.left.Node? && !(cur.left.key < k)
      invariant cur.Node? && SpineBegin(cur, k) == SpineBegin(n, k)
      decreases cur
    {
      cur := cur.left;
    }
    begin := Some(lo + Size(cur.left));
    var c: nat;
    cur, c := n, lo;
    while cur.right.Node? && !(cur.right.key > k)
      invariant cur.Node? && c + SpineEnd(cur, k) == lo + SpineEnd(n, k)
      decreases cur
    {
      c := c + Size(cur.left) + 1;
      cur := cur.right;
    }
    end := NodeOrNull(Inorder(t), c + Size(cur.left) + 1);
  }

  /** An AVL tree holding keys 1, 3, 5, 5, 5, 5 in order, the root being
      the second 5 (position 3). */
  const Witness: Tree :=
    Node(Node(Node(Nil, 1, 1, Nil), 3, 2, Node(Nil, 5, 1, Nil)), 5, 3,
         Node(Nil, 5, 2, Node(Nil, 5, 1, Nil)))

  /** On a valid AVL tree, `MCF_AvlEqualRange` for 5 begins at the root
      (position 3), although the equal range begins at position 2: the 5
      at position 2 hangs to the right of the root's left child, off the
      left spine. */
  lemma SpineRangeMissesEqual()
    ensures Sorted(Inorder(Witness)) && HeightsOk(Witness)
    ensures Inorder(Witness) == [1, 3, 5, 5, 5, 5]
    ensures SpineRange(Witness, 5).0 == Some(3)
    ensures FirstNotLess(Inorder(Witness), 5) == 2
  {
    assert Inorder(Witness) == [1, 3, 5, 5, 5, 5];
    assert SpineFind(Witness, 5) == Some((3, 5));
  }

  /** In a sorted sequence the keys equal to `k` are exactly those from the
      first not less than `k` up to the first greater than it. */
  lemma EqualBracket(s: seq<int>, k: int)
    requires Sorted(s)
    ensures forall j :: 0 <= j < |s| ==> (s[j] == k <==> FirstNotLess(s, k) <= j < FirstGreater(s, k))
  {
    var lo, hi := FirstNotLess(s, k), FirstGreater(s, k);
    forall j | 0 <= j < |s|
      ensures s[j] == k <==> lo <= j < hi
    {
      if lo <= j < hi {
        assert s[lo] <= s[j];
      }
    }
  }

  /** `MCF_AvlEqualRange` as evidently intended: null twice when no node
      equals `k`, otherwise the first node not less than `k` and the first
      node greater than it, which bracket exactly the equal nodes. */
  method EqualRange(t: Tree, k: int) returns (begin: Option<nat>, end: Option<nat>)
    requires Sorted(Inorder(t))
    ensures k !in Inorder(t) ==> begin.None? && end.None?
    ensures k in Inorder(t) ==>
      && begin == NodeOrNull(Inorder(t), FirstNotLess(Inorder(t), k))
      && end == NodeOrNull(Inorder(t), FirstGreater(Inorder(t), k))
      && begin.Some?
    ensures k in Inorder(t) ==> forall j :: 0 <= j < Size(t) ==>
      (Inorder(t)[j] == k <==> FirstNotLess(Inorder(t), k) <= j < FirstGreater(Inorder(t), k))
  {
    var top := Find(t, k);
    if top.None? {
      return None, None;
    }
    begin := LowerBound(t, k);
    end := UpperBound(t, k);
    EqualBracket(Inorder(t), k);
  }

  /** The subtree behind a child slot; `None` is the root slot. */
  function SlotTree(t: Tree, parent: Option<nat>, side: Side): Tree
    requires parent.Some? ==> parent.value < Size(t)
  {
    if parent.None? then t else Child(SubtreeAt(t, parent.value), side)
  }

  /** The slot names a node of `t` (or the root) and is empty. */
  ghost predicate SlotEmpty(t: Tree, parent: Option<nat>, side: Side)
  {
    (parent.Some? ==> parent.value < Size(t)) && SlotTree(t, parent, side) == Nil
  }

  /** The in-order position a node linked through the slot takes. */
  function InsertionPoint(parent: Option<nat>, side: Side): nat
  {
    if parent.None? then 0 else if side == Left then parent.value else parent.value + 1
  }

  /** The slot the descent from the root ends in: left of a node the new
      key compares less than, right of any other. */
  function SlotIn(t: Tree, key: int): (Option<nat>, Side)
  {
    match t
    case Nil => (None, Left)
    case Node(l, x, _, r) =>
      if key < x then (if l.Nil? then (Some(0), Left) else SlotIn(l, key))
      else if r.Nil? then (Some(Size(l)), Right)
      else (Shift(SlotIn(r, key).0, Size(l) + 1), SlotIn(r, key).1)
  }

  /** The descent ends in an empty slot, of a node of the tree or of the
      empty root. */
  lemma {:induction false} SlotInEmpty(t: Tree, key: int)
    ensures SlotEmpty(t, SlotIn(t, key).0, SlotIn(t, key).1)
    decreases t
  {
    if t.Node? {
      var l := Size(t.left);
      if key < t.key {
        if t.left.Nil? {
          assert SubtreeAt(t, 0) == t;
        } else {
          SlotInEmpty(t.left, key);
          var p := SlotIn(t.left, key).0.value;
          assert SubtreeAt(t, p) == SubtreeAt(t.left, p);
        }
      } else if t.right.Nil? {
        assert SubtreeAt(t, l) == t;
      } else {
        SlotInEmpty(t.right, key);
        var p := SlotIn(t.right, key).0.value;
        assert SubtreeAt(t, p + l + 1) == SubtreeAt(t.right, p);
      }
    }
  }

  /** On an ordered tree the slot is placed after every key not greater
      than the new one and before every greater key. */
  lemma {:induction false} SlotInPoint(t: Tree, key: int)
    requires Sorted(Inorder(t))
    ensures InsertionPoint(SlotIn(t, key).0, SlotIn(t, key).1) == FirstGreater(Inorder(t), key)
    decreases t
  {
    if t.Node? {
      var a, x, b := Inorder(t.left), t.key, Inorder(t.right);
      assert Inorder(t) == a + [x] + b;
      SortedParts(a, x, b);
      SlotInPoint(t.left, key);
      SlotInPoint(t.right, key);
      SlotInEmpty(t.right, key);
      FirstGreaterStep(a, x, b, key);
    }
  }

  /** A fresh node, before `MCF_AvlInternalAttach` rebalances. */
  function Leaf(key: int): Tree
  {
    Node(Nil, key, 1, Nil)
  }

  /** Links `leaf` as the `side` child of the node at `p`. */
  function Graft(t: Tree, p: nat, side: Side, leaf: Tree): Tree
    requires p < Size(t)
    decreases t
  {
    var l := Size(t.left);
    if p < l then t.(left := Graft(t.left, p, side, leaf))
    else if p == l then (if side == Left then t.(left := leaf) else t.(right := leaf))
    else t.(right := Graft(t.right, p - l - 1, side, leaf))
  }

  /** Regrouping a split below a node whose left subtree holds the split. */
  lemma SpliceLeft(u: seq<int>, v: seq<int>, m: seq<int>, x: int, b: seq<int>)
    ensures (u + v) + [x] + b == u + (v + [x] + b)
    ensures (u + m + v) + [x] + b == u + m + (v + [x] + b)
  {
  }

  /** Regrouping a split below a node whose right subtree holds the split. */
  lemma SpliceRight(a: seq<int>, x: int, u: seq<int>, v: seq<int>, m: seq<int>)
    ensures a + [x] + (u + v) == (a + [x] + u) + v
    ensures a + [x] + (u + m + v) == (a + [x] + u) + m + v
  {
  }

  /** Grafting into an empty slot splits the keys of `t` at the slot's
      in-order position and puts the leaf's keys in between. */
  lemma {:induction false} GraftSplits(t: Tree, p: nat, side: Side, leaf: Tree) returns (u: seq<int>, v: seq<int>)
    requires p < Size(t) && Child(SubtreeAt(t, p), side) == Nil
    ensures Inorder(t) == u + v && |u| == InsertionPoint(Some(p), side)
    ensures Inorder(Graft(t, p, side, leaf)) == u + Inorder(leaf) + v
    decreases t, 1
  {
    var l := Size(t.left);
    if p < l {
      assert SubtreeAt(t, p) == SubtreeAt(t.left, p);
      u, v := GraftSplitsLeft(t, p, side, leaf);
    } else if p > l {
      var p' := p - l - 1;
      assert SubtreeAt(t, p) == SubtreeAt(t.right, p');
      u, v := GraftSplitsRight(t, p', side, leaf);
      assert l + 1 + p' == p;
    } else {
      assert SubtreeAt(t, p) == t;
      u, v := GraftSplitsHere(t, side, leaf);
    }
  }

  lemma {:induction false} GraftSplitsLeft(t: Tree, p: nat, side: Side, leaf: Tree) returns (u: seq<int>, v: seq<int>)
    requires t.Node? && p < Size(t.left) && Child(SubtreeAt(t.left, p), side) == Nil
    ensures Inorder(t) == u + v && |u| == InsertionPoint(Some(p), side)
    ensures Inorder(Graft(t, p, side, leaf)) == u + Inorder(leaf) + v
    decreases t, 0
  {
    var Node(l, x, h, r) := t;
    var u', v' := GraftSplits(l, p, side, leaf);
    assert Graft(t, p, side, leaf) == Node(Graft(l, p, side, leaf), x, h, r);
    SpliceLeft(u', v', Inorder(leaf), x, Inorder(r));
    u, v := u', v' + [x] + Inorder(r);
  }

  lemma {:induction false} GraftSplitsRight(t: Tree, p: nat, side: Side, leaf: Tree) returns (u: seq<int>, v: seq<int>)
    requires t.Node? && p < Size(t.right) && Child(SubtreeAt(t.right, p), side) == Nil
    ensures var i := Size(t.left) + 1 + p;
      Inorder(t) == u + v && |u| == InsertionPoint(Some(i), side) &&
      Inorder(Graft(t, i, side, leaf)) == u + Inorder(leaf) + v
    decreases t, 0
  {
    var Node(l, x, h, r) := t;
    var u', v' := GraftSplits(r, p, side, leaf);
    var i := Size(l) + 1 + p;
    assert i - Size(l) - 1 == p;
    assert Graft(t, i, side, leaf) == Node(l, x, h, Graft(r, p, side, leaf));
    SpliceRight(Inorder(l), x, u', v', Inorder(leaf));
    u, v := Inorder(l) + [x] + u', v';
  }

  lemma GraftSplitsHere(t: Tree, side: Side, leaf: Tree) returns (u: seq<int>, v: seq<int>)
    requires t.Node? && Child(t, side) == Nil
    ensures var i := Size(t.left);
      Inorder(t) == u + v && |u| == InsertionPoint(Some(i), side) &&
      Inorder(Graft(t, i, side, leaf)) == u + Inorder(leaf) + v
  {
    var Node(l, x, h, r) := t;
    if side == Left {
      u, v := [], [x] + Inorder(r);
    } else {
      u, v := Inorder(l) + [x], [];
    }
    assert Inorder(t) == u + v;
  }

  /** Grafting into an empty slot inserts the leaf's keys at the slot's
      in-order position and leaves every other key where it was. */
  lemma GraftInorder(t: Tree, p: nat, side: Side, leaf: Tree)
    requires p < Size(t) && Child(SubtreeAt(t, p), side) == Nil
    ensures var s, q := Inorder(t), InsertionPoint(Some(p), side);
      q <= |s| && Inorder(Graft(t, p, side, leaf)) == s[..q] + Inorder(leaf) + s[q..]
  {
    var u, v := GraftSplits(t, p, side, leaf);
    var s := Inorder(t);
    assert s[..|u|] == u;
    assert s[|u|..] == v;
  }

  /** The tree after `MCF_AvlInternalAttach` links a node of key `key`
      through the slot, before any rebalancing. */
  function Link(t: Tree, parent: Option<nat>, side: Side, key: int): Tree
    requires parent.Some? ==> parent.value < Size(t)
  {
    if parent.None? then Leaf(key) else Graft(t, parent.value, side, Leaf(key))
  }

  /** The first node's left slot and the last node's right slot are empty. */
  lemma ExtremeSlots(t: Tree)
    requires t.Node?
    ensures SlotEmpty(t, Some(0), Left) && SlotEmpty(t, Some(Size(t) - 1), Right)
  {
    Extremes(t);
  }

  /** A key below the first key goes left of the first node. */
  lemma HintFirst(t: Tree, key: int)
    requires Sorted(Inorder(t)) && t.Node? && key < Inorder(t)[0]
    ensures SlotEmpty(t, Some(0), Left)
    ensures InsertionPoint(Some(0), Left) == FirstGreater(Inorder(t), key)
  {
    ExtremeSlots(t);
    FirstGreaterBetween(Inorder(t), key, 0);
  }

  /** A key not below the last key goes right of the last node `h`. */
  lemma HintLast(t: Tree, key: int, h: nat)
    requires Sorted(Inorder(t)) && h + 1 == Size(t) && Inorder(t)[h] <= key
    ensures SlotEmpty(t, Some(h), Right)
    ensures InsertionPoint(Some(h), Right) == FirstGreater(Inorder(t), key)
  {
    ExtremeSlots(t);
    FirstGreaterBetween(Inorder(t), key, h + 1);
  }

  /** A key between the neighbours at `i - 1` and `i` goes right of the
      first or left of the second, whichever is lower in the tree. */
  lemma HintBetween(t: Tree, key: int, i: nat, parent: Option<nat>, side: Side)
    requires Sorted(Inorder(t)) && HeightsOk(t) && 0 < i < Size(t)
    requires Inorder(t)[i - 1] <= key < Inorder(t)[i]
    requires (parent, side) ==
      if SubtreeAt(t, i - 1).height < SubtreeAt(t, i).height then (Some(i - 1), Right) else (Some(i), Left)
    ensures SlotEmpty(t, parent, side)
    ensures InsertionPoint(parent, side) == FirstGreater(Inorder(t), key)
  {
    AdjacentNodes(t, i - 1);
    FirstGreaterBetween(Inorder(t), key, i);
  }

  /** Linking a leaf through an empty slot puts its key at the slot's
      in-order position. */
  lemma LinkInorder(t: Tree, parent: Option<nat>, side: Side, key: int)
    requires SlotEmpty(t, parent, side)
    ensures var s, q := Inorder(t), InsertionPoint(parent, side);
      q <= |s| && Inorder(Link(t, parent, side, key)) == s[..q] + [key] + s[q..]
  {
    assert Inorder(Leaf(key)) == [key];
    if parent.Some? {
      var u, v := GraftSplits(t, parent.value, side, Leaf(key));
      var s := Inorder(t);
      assert s[..|u|] == u;
      assert s[|u|..] == v;
    } else {
      assert t == Nil;
    }
  }

  /** `MCF_AvlAttachWithHint`'s choice of parent and child slot. A hint
      adjacent to the new node's place is used directly: the node goes
      between the hint and its `pPrev` (or `pNext`), under whichever of the
      two is lower in the tree, whose facing child is then empty. Otherwise
      the node descends from the root, left when it compares less than the
      current node and right otherwise. Either way the slot is empty and the
      node lands after every key not greater than its own, so equal keys keep
      their insertion order, and linking it keeps the tree ordered. */
  method AttachWithHint(t: Tree, hint: Option<nat>, key: int) returns (parent: Option<nat>, side: Side)
    requires Sorted(Inorder(t)) && HeightsOk(t)
    requires hint.Some? ==> hint.value < Size(t)
    ensures hint.None? ==> (parent, side) == SlotIn(t, key)
    ensures SlotEmpty(t, parent, side)
    ensures InsertionPoint(parent, side) == FirstGreater(Inorder(t), key)
    ensures Inorder(Link(t, parent, side, key)) ==
      Inorder(t)[..FirstGreater(Inorder(t), key)] + [key] + Inorder(t)[FirstGreater(Inorder(t), key)..]
  {
    parent, side := None, Left;
    if hint.Some? {
      var h := hint.value;
      var hn := SubtreeAt(t, h);
      KeyAt(t, h);
      if key < hn.key {
        if h == 0 {
          HintFirst(t, key);
          parent, side := Some(h), Left;
        } else {
          var pn := SubtreeAt(t, h - 1);
          KeyAt(t, h - 1);
          if key >= pn.key {
            if pn.height < hn.height {
              parent, side := Some(h - 1), Right;
            } else {
              parent, side := Some(h), Left;
            }
            HintBetween(t, key, h, parent, side);
          }
        }
      } else {
        if h + 1 == Size(t) {
          HintLast(t, key, h);
          parent, side := Some(h), Right;
        } else {
          var nn := SubtreeAt(t, h + 1);
          KeyAt(t, h + 1);
          if key < nn.key {
            if hn.height < nn.height {
              parent, side := Some(h), Right;
            } else {
              parent, side := Some(h + 1), Left;
            }
            HintBetween(t, key, h + 1, parent, side);
          }
        }
      }
    }
    if parent.None? {
      parent, side := DescendFromRoot(t, key);
    }
    LinkInorder(t, parent, side, key);
  }

  /** The descent of `MCF_AvlAttachWithHint` from the root slot. */
  method DescendFromRoot(t: Tree, key: int) returns (parent: Option<nat>, side: Side)
    requires Sorted(Inorder(t))
    ensures (parent, side) == SlotIn(t, key)
    ensures SlotEmpty(t, parent, side)
    ensures InsertionPoint(parent, side) == FirstGreater(Inorder(t), key)
  {
    parent, side := None, Left;
    var cur: Tree, lo: nat := t, 0;
    while cur.Node?
      invariant cur.Nil? ==> SlotIn(t, key) == (parent, side)
      invariant cur.Node? ==> SlotIn(t, key) == (Shift(SlotIn(cur, key).0, lo), SlotIn(cur, key).1)
      decreases cur
    {
      var m := lo + Size(cur.left);
      if key < cur.key {
        parent, side := Some(m), Left;
        cur := cur.left;
      } else {
        parent, side := Some(m), Right;
        lo, cur := m + 1, cur.right;
      }
    }
    SlotInEmpty(t, key);
    SlotInPoint(t, key);
  }

  /** `MCF_AvlAttach`: `AttachWithHint` without a hint. */
  method Attach(t: Tree, key: int) returns (parent: Option<nat>, side: Side)
    requires Sorted(Inorder(t)) && HeightsOk(t)
    ensures (parent, side) == SlotIn(t, key)
    ensures SlotEmpty(t, parent, side)
    ensures InsertionPoint(parent, side) == FirstGreater(Inorder(t), key)
  {
    parent, side := AttachWithHint(t, None, key);
  }
}
