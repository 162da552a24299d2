/** The tree of freed blocks (src/mm.cpp:173-338): a binary search tree keyed by block
    size whose links live in the headers of the freed blocks themselves. */
module FreeTree {
  import opened Basics

  const HDR := 20  // sizeof(PtrInfo) on the 32-bit target

  /** A freed block (address of its header, payload size) and its two subtrees. */
  datatype Tree = Leaf | Node(addr: nat, size: nat, left: Tree, right: Tree)

  /** A block found by the search, with its parent on the search path. */
  datatype Hit = Hit(addr: nat, parent: Option<nat>)

  /** The fields of a block header (struct PtrInfo). Links hold payload pointers; 0 is null. */
  datatype Info = Info(prev: nat, next: nat, size: nat, ressize: nat, state: nat, used: nat)

  function Nodes(t: Tree): (r: set<nat>) {
    match t
    case Leaf => {}
    case Node(a, _, l, r) => {a} + Nodes(l) + Nodes(r)
  }

  /** Every block occurs once: the links form a tree, without sharing or cycles. */
  ghost predicate NoDup(t: Tree) {
    match t
    case Leaf => true
    case Node(a, _, l, r) =>
      a !in Nodes(l) && a !in Nodes(r) && Nodes(l) !! Nodes(r) && NoDup(l) && NoDup(r)
  }

  ghost predicate AllBelow(t: Tree, s: nat) {
    t.Node? ==> t.size < s && AllBelow(t.left, s) && AllBelow(t.right, s)
  }

  ghost predicate AllAtLeast(t: Tree, s: nat) {
    t.Node? ==> s <= t.size && AllAtLeast(t.left, s) && AllAtLeast(t.right, s)
  }

  /** Left sizes are smaller, right sizes are not smaller. */
  ghost predicate Ordered(t: Tree) {
    t.Node? ==> AllBelow(t.left, t.size) && AllAtLeast(t.right, t.size) && Ordered(t.left) && Ordered(t.right)
  }

  /** The tree holds block x with size s. */
  ghost predicate Holds(t: Tree, x: nat, s: nat) {
    t.Node? && ((t.addr == x && t.size == s) || Holds(t.left, x, s) || Holds(t.right, x, s))
  }

  /** The tree holds some block of size s. */
  ghost predicate HasSize(t: Tree, s: nat) {
    t.Node? && (t.size == s || HasSize(t.left, s) || HasSize(t.right, s))
  }

  // ------------------------------------------------------------------ insertion

  function Single(a: nat, s: nat): (r: Tree) {
    Node(a, s, Leaf, Leaf)
  }

  /** treeAdd on an abstract tree. */
  function Insert(t: Tree, a: nat, s: nat): (r: Tree)
    ensures Nodes(r) == Nodes(t) + {a}
  {
    match t
    case Leaf => Single(a, s)
    case Node(b, z, l, r) =>
      if s < z then Node(b, z, Insert(l, a, s), r) else Node(b, z, l, Insert(r, a, s))
  }

  lemma {:induction false} InsertBounds(t: Tree, a: nat, s: nat, b: nat)
    ensures AllBelow(t, b) && s < b ==> AllBelow(Insert(t, a, s), b)
    ensures AllAtLeast(t, b) && b <= s ==> AllAtLeast(Insert(t, a, s), b)
  {
    if t.Node? {
      InsertBounds(t.left, a, s, b);
      InsertBounds(t.right, a, s, b);
    }
  }

  /** treeAdd keeps the tree a tree and keeps it ordered. */
  lemma {:induction false} InsertKeeps(t: Tree, a: nat, s: nat)
    requires NoDup(t) && Ordered(t) && a !in Nodes(t)
    ensures NoDup(Insert(t, a, s)) && Ordered(Insert(t, a, s))
  {
    if t.Node? {
      if s < t.size {
        InsertKeeps(t.left, a, s);
        InsertBounds(t.left, a, s, t.size);
      } else {
        InsertKeeps(t.right, a, s);
        InsertBounds(t.right, a, s, t.size);
      }
    }
  }

  /** treeAdd adds exactly the given block, under its size. */
  lemma {:induction false} InsertHolds(t: Tree, a: nat, s: nat)
    ensures forall x, z :: Holds(Insert(t, a, s), x, z) <==> Holds(t, x, z) || (x == a && z == s)
  {
    if t.Node? {
      InsertHolds(if s < t.size then t.left else t.right, a, s);
    }
  }

  lemma {:induction false} HoldsNode(t: Tree, x: nat, s: nat)
    requires Holds(t, x, s)
    ensures x in Nodes(t)
  {
    if t.addr == x && t.size == s {
    } else if Holds(t.left, x, s) {
      HoldsNode(t.left, x, s);
    } else {
      HoldsNode(t.right, x, s);
    }
  }

  // ------------------------------------------------------------------ search

  /** findAvail's walk over an abstract tree, with its two side branches into the opposite
      subtree (src/mm.cpp:316-319, 327-330). */
  function Search(t: Tree, parent: Option<nat>, s: nat): (r: Option<Hit>)
    ensures r.Some? ==> r.value.addr in Nodes(t)
  {
    if t.Leaf? then None
    else if t.size == s then Some(Hit(t.addr, parent))
    else if s < t.size then
      if t.left.Node? then Search(t.left, Some(t.addr), s)
      else if t.right.Node? && s <= t.right.size then Search(t.right, Some(t.addr), s)
      else None
    else
      if t.right.Node? then Search(t.right, Some(t.addr), s)
      else if t.left.Node? && s >= t.left.size then Search(t.left, Some(t.addr), s)
      else None
  }

  lemma {:induction false} BoundsExclude(t: Tree, b: nat, s: nat)
    ensures AllBelow(t, b) && b <= s ==> !HasSize(t, s)
    ensures AllAtLeast(t, b) && s < b ==> !HasSize(t, s)
  {
    if t.Node? {
      BoundsExclude(t.left, b, s);
      BoundsExclude(t.right, b, s);
    }
  }

  /** The search finds a block exactly when the tree holds one of exactly the size asked for,
      and the block it finds has that size. */
  lemma {:induction false} SearchExact(t: Tree, parent: Option<nat>, s: nat)
    requires Ordered(t)
    ensures Search(t, parent, s).Some? <==> HasSize(t, s)
    ensures Search(t, parent, s).Some? ==> Holds(t, Search(t, parent, s).value.addr, s)
  {
    if t.Node? && t.size != s {
      var side := if s < t.size then t.left else t.right;
      var other := if s < t.size then t.right else t.left;
      SearchExact(side, Some(t.addr), s);
      SearchExact(other, Some(t.addr), s);
      BoundsExclude(other, t.size, s);
    }
  }

  // ------------------------------------------------------------------ release

  /** The subtree rooted at block x. */
  function SubtreeAt(t: Tree, x: nat): (r: Tree)
    ensures x in Nodes(t) ==> r.Node? && r.addr == x
  {
    if t.Leaf? || t.addr == x then t
    else if x in Nodes(t.left) then SubtreeAt(t.left, x)
    else SubtreeAt(t.right, x)
  }

  /** The tree without the subtree rooted at x. */
  function Detach(t: Tree, x: nat): (r: Tree) {
    if t.Leaf? || t.addr == x then Leaf
    else if x in Nodes(t.left) then Node(t.addr, t.size, Detach(t.left, x), t.right)
    else Node(t.addr, t.size, t.left, Detach(t.right, x))
  }

  function Readd(t: Tree, child: Tree): (r: Tree) {
    if child.Leaf? then t else Insert(t, child.addr, child.size)
  }

  /** releaseFree on an abstract tree: re-added children come back as single nodes. */
  function Release(t: Tree, x: nat): (r: Tree)
    requires x in Nodes(t)
  {
    if t.addr == x then
      if t.left.Leaf? then t.right
      else if t.right.Leaf? then t.left
      else Readd(t.right, t.left)
    else
      var sub := SubtreeAt(t, x);
      Readd(Readd(Detach(t, x), sub.left), sub.right)
  }

  function RootOf(t: Tree): (r: set<nat>) {
    if t.Leaf? then {} else {t.addr}
  }

  /** The blocks that releasing x drops from the tree besides x: the strict descendants of
      each child that is re-added. */
  function Dropped(t: Tree, x: nat): (r: set<nat>)
    requires x in Nodes(t)
  {
    if t.addr == x then
      if t.left.Leaf? || t.right.Leaf? then {} else Nodes(t.left) - RootOf(t.left)
    else
      var sub := SubtreeAt(t, x);
      (Nodes(sub.left) - RootOf(sub.left)) + (Nodes(sub.right) - RootOf(sub.right))
  }

  lemma {:induction false} SubtreeFacts(t: Tree, x: nat)
    requires NoDup(t) && Ordered(t) && x in Nodes(t)
    ensures var sub := SubtreeAt(t, x);
      && sub.Node? && sub.addr == x && NoDup(sub) && Ordered(sub) && Nodes(sub) <= Nodes(t)
    ensures forall b :: AllBelow(t, b) ==> AllBelow(SubtreeAt(t, x), b)
    ensures forall b :: AllAtLeast(t, b) ==> AllAtLeast(SubtreeAt(t, x), b)
    ensures forall y, s :: Holds(SubtreeAt(t, x), y, s) ==> Holds(t, y, s)
  {
    if t.addr != x {
      if x in Nodes(t.left) {
        SubtreeFacts(t.left, x);
      } else {
        SubtreeFacts(t.right, x);
      }
    }
  }

  lemma {:induction false} DetachFacts(t: Tree, x: nat)
    requires NoDup(t) && Ordered(t) && x in Nodes(t)
    ensures NoDup(Detach(t, x)) && Ordered(Detach(t, x))
    ensures Nodes(Detach(t, x)) == Nodes(t) - Nodes(SubtreeAt(t, x))
    ensures forall b :: AllBelow(t, b) ==> AllBelow(Detach(t, x), b)
    ensures forall b :: AllAtLeast(t, b) ==> AllAtLeast(Detach(t, x), b)
    ensures forall y, s :: Holds(Detach(t, x), y, s) ==> Holds(t, y, s)
  {
    SubtreeFacts(t, x);
    if t.addr != x {
      if x in Nodes(t.left) {
        SubtreeFacts(t.left, x);
        DetachFacts(t.left, x);
      } else {
        SubtreeFacts(t.right, x);
        DetachFacts(t.right, x);
      }
    }
  }

  lemma ReaddFacts(t: Tree, child: Tree)
    requires NoDup(t) && Ordered(t) && Nodes(t) !! Nodes(child)
    ensures NoDup(Readd(t, child)) && Ordered(Readd(t, child))
    ensures Nodes(Readd(t, child)) == Nodes(t) + RootOf(child)
    ensures forall y, s :: Holds(Readd(t, child), y, s) ==> Holds(t, y, s) || Holds(child, y, s)
  {
    if child.Node? {
      InsertKeeps(t, child.addr, child.size);
      InsertHolds(t, child.addr, child.size);
    }
  }

  /** releaseFree keeps the tree a tree and ordered, invents no block, and leaves exactly the
      old blocks minus the released one and minus the dropped ones. */
  lemma ReleaseExact(t: Tree, x: nat)
    requires NoDup(t) && Ordered(t) && x in Nodes(t)
    ensures NoDup(Release(t, x)) && Ordered(Release(t, x))
    ensures Nodes(Release(t, x)) == Nodes(t) - {x} - Dropped(t, x)
    ensures x !in Dropped(t, x) && Dropped(t, x) <= Nodes(t)
    ensures forall y, s :: Holds(Release(t, x), y, s) ==> Holds(t, y, s)
  {
    if t.addr == x {
      ReaddFacts(t.right, t.left);
    } else {
      ReleaseInside(t, x);
    }
  }

  lemma ReleaseInside(t: Tree, x: nat)
    requires NoDup(t) && Ordered(t) && x in Nodes(t) && t.addr != x
    ensures NoDup(Release(t, x)) && Ordered(Release(t, x))
    ensures Nodes(Release(t, x)) == Nodes(t) - {x} - Dropped(t, x)
    ensures x !in Dropped(t, x) && Dropped(t, x) <= Nodes(t)
    ensures forall y, s :: Holds(Release(t, x), y, s) ==> Holds(t, y, s)
  {
    var sub, d := SubtreeAt(t, x), Detach(t, x);
    SubtreeFacts(t, x);
    DetachFacts(t, x);
    ReaddFacts(d, sub.left);
    var e := Readd(d, sub.left);
    ReaddFacts(e, sub.right);
    ReleaseSets(Nodes(t), Nodes(sub.left), Nodes(sub.right), x, RootOf(sub.left), RootOf(sub.right));
  }

  lemma ReleaseSets(n: set<nat>, l: set<nat>, r: set<nat>, x: nat, lroot: set<nat>, rroot: set<nat>)
    requires {x} + l + r <= n && x !in l && x !in r && l !! r && lroot <= l && rroot <= r
    ensures n - ({x} + l + r) + lroot + rroot == n - {x} - ((l - lroot) + (r - rroot))
  {
  }

  // ------------------------------------------------------------------ links in headers

  /** The payload pointer of the root of t, or null. */
  function PtrOf(t: Tree): (r: nat) {
    if t.Leaf? then 0 else t.addr + HDR
  }

  /** The headers h spell out the tree t. */
  ghost predicate Linked(h: map<nat, Info>, t: Tree) {
    t.Node? ==>
      && t.addr in h
      && h[t.addr].size == t.size
      && h[t.addr].prev == PtrOf(t.left)
      && h[t.addr].next == PtrOf(t.right)
      && Linked(h, t.left)
      && Linked(h, t.right)
  }

  lemma {:induction false} LinkedFrame(h: map<nat, Info>, g: map<nat, Info>, t: Tree)
    requires Linked(h, t)
    requires forall a | a in Nodes(t) && a in h :: a in g && g[a] == h[a]
    ensures Linked(g, t)
  {
    if t.Node? {
      LinkedFrame(h, g, t.left);
      LinkedFrame(h, g, t.right);
    }
  }

  lemma {:induction false} LinkedKeys(h: map<nat, Info>, t: Tree)
    requires Linked(h, t)
    ensures Nodes(t) <= h.Keys
  {
    if t.Node? {
      LinkedKeys(h, t.left);
      LinkedKeys(h, t.right);
    }
  }

  /** Where treeAdd hangs a block of size s: the node, and whether on its left. */
  function InsertPoint(t: Tree, s: nat): (r: (nat, bool))
    requires t.Node?
    ensures r.0 in Nodes(t)
  {
    if s < t.size then
      if t.left.Leaf? then (t.addr, true) else InsertPoint(t.left, s)
    else
      if t.right.Leaf? then (t.addr, false) else InsertPoint(t.right, s)
  }

  function Hang(i: Info, left: bool, ptr: nat): (r: Info) {
    if left then i.(prev := ptr) else i.(next := ptr)
  }

  /** Writing one link at the insertion point turns the tree into the tree with the block. */
  lemma {:induction false} InsertLinks(h: map<nat, Info>, t: Tree, a: nat, s: nat)
    requires t.Node? && Linked(h, t) && NoDup(t)
    requires a !in Nodes(t) && a in h && h[a].size == s && h[a].prev == 0 && h[a].next == 0
    ensures var p := InsertPoint(t, s);
      && p.0 in h
      && Linked(h[p.0 := Hang(h[p.0], p.1, a + HDR)], Insert(t, a, s))
  {
    var p := InsertPoint(t, s);
    LinkedKeys(h, t);
    var g := h[p.0 := Hang(h[p.0], p.1, a + HDR)];
    if s < t.size {
      if t.left.Leaf? {
        LinkedFrame(h, g, t.right);
      } else {
        InsertLinks(h, t.left, a, s);
        LinkedFrame(h, g, t.right);
      }
    } else {
      if t.right.Leaf? {
        LinkedFrame(h, g, t.left);
      } else {
        InsertLinks(h, t.right, a, s);
        LinkedFrame(h, g, t.left);
      }
    }
  }

  /** p is the parent of x, on the given side. */
  ghost predicate ParentOf(t: Tree, p: nat, x: nat) {
    && t.Node?
    && (|| (t.addr == p && ((t.left.Node? && t.left.addr == x) || (t.right.Node? && t.right.addr == x)))
        || ParentOf(t.left, p, x)
        || ParentOf(t.right, p, x))
  }

  lemma {:induction false} ParentInside(t: Tree, p: nat, x: nat)
    requires ParentOf(t, p, x)
    ensures p in Nodes(t)
    ensures x in Nodes(t.left) || x in Nodes(t.right)
  {
    if !(t.addr == p && ((t.left.Node? && t.left.addr == x) || (t.right.Node? && t.right.addr == x))) {
      if ParentOf(t.left, p, x) { ParentInside(t.left, p, x); } else { ParentInside(t.right, p, x); }
    }
  }

  /** The search reports the parent of the block it found. */
  lemma {:induction false} SearchParent(t: Tree, parent: Option<nat>, s: nat)
    requires NoDup(t) && Search(t, parent, s).Some?
    ensures var hit := Search(t, parent, s).value;
      && hit.addr in Nodes(t)
      && (hit.addr == t.addr ==> hit.parent == parent)
      && (hit.addr != t.addr ==> hit.parent.Some? && ParentOf(t, hit.parent.value, hit.addr))
  {
    if t.size != s {
      var goLeft := if s < t.size then t.left.Node? else t.right.Leaf?;
      SearchParent(if goLeft then t.left else t.right, Some(t.addr), s);
    }
  }

  /** Clearing the parent's link to x detaches the subtree of x. */
  lemma {:induction false} DetachLinks(h: map<nat, Info>, t: Tree, p: nat, x: nat)
    requires Linked(h, t) && NoDup(t) && ParentOf(t, p, x)
    ensures p in h && p != x && x in Nodes(t) && t.addr != x
    ensures h[p].prev == x + HDR || h[p].next == x + HDR
    ensures Linked(h[p := Hang(h[p], h[p].prev == x + HDR, 0)], Detach(t, x))
  {
    LinkedKeys(h, t);
    ParentInside(t, p, x);
    var g := h[p := Hang(h[p], h[p].prev == x + HDR, 0)];
    if t.addr == p && ((t.left.Node? && t.left.addr == x) || (t.right.Node? && t.right.addr == x)) {
      LinkedFrame(h, g, t.left);
      LinkedFrame(h, g, t.right);
    } else if ParentOf(t.left, p, x) {
      ParentInside(t.left, p, x);
      DetachLinks(h, t.left, p, x);
      LinkedFrame(h, g, t.right);
    } else {
      ParentInside(t.right, p, x);
      DetachLinks(h, t.right, p, x);
      LinkedFrame(h, g, t.left);
    }
  }

  /** The links of the released node lead to its two subtrees. */
  lemma {:induction false} SubtreeLinks(h: map<nat, Info>, t: Tree, x: nat)
    requires Linked(h, t) && x in Nodes(t)
    ensures SubtreeAt(t, x).Node? && SubtreeAt(t, x).addr == x && Linked(h, SubtreeAt(t, x))
  {
    if t.addr != x {
      SubtreeLinks(h, if x in Nodes(t.left) then t.left else t.right, x);
    }
  }

  // ------------------------------------------------------------------ a loss

  /** A root of size 20 whose left child, of size 10, has a left child of size 5 and, on the right of
      the root, a block of size 30. */
  function FourBlocks(): (t: Tree) {
    Node(100, 20, Node(200, 10, Single(300, 5), Leaf), Single(400, 30))
  }

  /** Releasing the root re-adds its left child alone: the block of size 5 is lost. */
  lemma ReleaseLoses()
    ensures NoDup(FourBlocks()) && Ordered(FourBlocks()) && HasSize(FourBlocks(), 5)
    ensures Release(FourBlocks(), 100) == Node(400, 30, Single(200, 10), Leaf)
    ensures Dropped(FourBlocks(), 100) == {300} && !HasSize(Release(FourBlocks(), 100), 5)
  {
  }
}
