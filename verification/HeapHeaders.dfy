/** Block headers in byte memory: struct PtrInfo (src/mm.cpp:58-71) as 17 encoded bytes of a
    20-byte header, and what link stores do to them. */
module HeapHeaders {
  import opened Basics
  import opened Bytes
  import opened FreeTree
  import opened HeapModel

  const USED := 0x7E   // PtrStateUsed
  const FREED := 0x42  // PtrStateFreed

  function InfoAt(m: seq<Byte>, a: nat): (r: Info)
    requires a + HDR <= |m|
  {
    Info(Load32(m, a), Load32(m, a + 4), Load32(m, a + 8), Load32(m, a + 12), m[a + 16] % 128, m[a + 16] / 128)
  }

  predicate Far(a: nat, b: nat) {
    a + HDR <= b || b + HDR <= a
  }

  /** Headers lie in memory and do not overlap. */
  ghost predicate Spaced(keys: set<nat>, n: nat) {
    && (forall a | a in keys :: a + HDR <= n)
    && (forall a, b {:trigger Far(a, b)} | a in keys && b in keys && a != b :: Far(a, b))
  }

  ghost function View(m: seq<Byte>, keys: set<nat>): (r: map<nat, Info>)
    requires Spaced(keys, |m|)
  {
    map a | a in keys :: InfoAt(m, a)
  }

  /** m and r agree everywhere but in the two link words of the given headers. */
  ghost predicate LinksOnly(m: seq<Byte>, r: seq<Byte>, keys: set<nat>) {
    && |m| == |r|
    && forall i | 0 <= i < |m| && m[i] != r[i] :: exists a :: a in keys && a <= i < a + 8
  }

  lemma LinksOnlyTrans(m: seq<Byte>, r: seq<Byte>, q: seq<Byte>, keys: set<nat>)
    requires LinksOnly(m, r, keys) && LinksOnly(r, q, keys)
    ensures LinksOnly(m, q, keys)
  {
    forall i | 0 <= i < |m| && m[i] != q[i] ensures exists a :: a in keys && a <= i < a + 8 {
      assert m[i] != r[i] || r[i] != q[i];
    }
  }

  /** A header whose bytes did not change reads the same. */
  lemma InfoSame(m: seq<Byte>, r: seq<Byte>, a: nat)
    requires |m| == |r| && a + HDR <= |m|
    requires forall i | a <= i < a + 17 :: m[i] == r[i]
    ensures InfoAt(m, a) == InfoAt(r, a)
  {
    LoadSame(m, r, a);
    LoadSame(m, r, a + 4);
    LoadSame(m, r, a + 8);
    LoadSame(m, r, a + 12);
  }

  lemma StoreLinkHere(m: seq<Byte>, a: nat, left: bool, v: nat)
    requires a + HDR <= |m| && v < TWO32
    ensures InfoAt(Store32(m, if left then a else a + 4, v), a) == Hang(InfoAt(m, a), left, v)
  {
    var at := if left then a else a + 4;
    LoadStore(m, at, v);
    LoadStoreOther(m, at, v, if left then a + 4 else a);
    LoadStoreOther(m, at, v, a + 8);
    LoadStoreOther(m, at, v, a + 12);
  }

  /** Storing a link of one header changes that field and nothing else in any header. */
  lemma StoreLink(m: seq<Byte>, keys: set<nat>, a: nat, left: bool, v: nat)
    requires Spaced(keys, |m|) && a in keys && v < TWO32
    ensures var r := Store32(m, if left then a else a + 4, v);
      && LinksOnly(m, r, keys)
      && (forall b | b in keys && b != a :: InfoAt(r, b) == InfoAt(m, b))
      && View(r, keys) == View(m, keys)[a := Hang(View(m, keys)[a], left, v)]
  {
    StoreLinkHere(m, a, left, v);
    LinkChanged(m, Store32(m, if left then a else a + 4, v), keys, a);
  }

  /** r differs from m in the link words of one header. */
  lemma LinkChanged(m: seq<Byte>, r: seq<Byte>, keys: set<nat>, a: nat)
    requires Spaced(keys, |m|) && a in keys && |r| == |m|
    requires forall i | 0 <= i < |m| && !(a <= i < a + 8) :: r[i] == m[i]
    ensures LinksOnly(m, r, keys)
    ensures forall b | b in keys && b != a :: InfoAt(r, b) == InfoAt(m, b)
    ensures View(r, keys) == View(m, keys)[a := InfoAt(r, a)]
  {
    forall b | b in keys && b != a ensures InfoAt(r, b) == InfoAt(m, b) {
      assert Far(a, b);
      InfoSame(m, r, b);
    }
  }

  /** Link stores leave sizes and states, and every byte outside headers, alone. */
  lemma LinksOnlyKeeps(m: seq<Byte>, r: seq<Byte>, keys: set<nat>, a: nat)
    requires LinksOnly(m, r, keys) && Spaced(keys, |m|) && a in keys
    ensures InfoAt(r, a) == InfoAt(m, a).(prev := InfoAt(r, a).prev, next := InfoAt(r, a).next)
  {
    forall i | a + 8 <= i < a + 17 ensures m[i] == r[i] {
      assert forall b | b in keys && b != a :: Far(a, b);
    }
    LoadSame(m, r, a + 8);
    LoadSame(m, r, a + 12);
  }

  /** The header of a block says what the block is. */
  predicate HeaderSays(i: Info, b: Block) {
    i.size == b.size && i.state == (if b.live then USED else FREED) && i.used == (if b.live then 1 else 0)
  }

  /** Memory agrees with the abstract heap: every header says what its block is, and the links
      spell out the free tree from the root pointer. */
  ghost predicate Shape(m: seq<Byte>, root: nat, blocks: map<nat, Block>, tree: Tree) {
    && |m| == TWO32
    && Spaced(blocks.Keys, |m|)
    && NoDup(tree) && Ordered(tree) && Nodes(tree) <= blocks.Keys
    && root == PtrOf(tree)
    && Linked(View(m, blocks.Keys), tree)
  }

  ghost predicate HeadersMatch(m: seq<Byte>, blocks: map<nat, Block>)
    requires Spaced(blocks.Keys, |m|)
  {
    forall a {:trigger InfoAt(m, a)} | a in blocks :: HeaderSays(InfoAt(m, a), blocks[a])
  }

  /** Every payload byte of every live block of h is the same in both memories. */
  ghost predicate PayloadKept(m: seq<Byte>, r: seq<Byte>, h: Heap) {
    && |m| == |r|
    && forall a, i | a in h.blocks && h.blocks[a].live && a + HDR <= i < End(h, a) && 0 <= i < |m| :: r[i] == m[i]
  }

  lemma InvSpaced(h: Heap)
    requires BlocksApart(h)
    ensures Spaced(h.blocks.Keys, TWO32)
    ensures forall a | a in h.blocks :: 0 < a && End(h, a) < TWO32
  {
    forall a | a in h.blocks ensures 0 < a && End(h, a) < TWO32 {
      assert InPage(h, a, End(h, a));
    }
    forall a, b | a in h.blocks && b in h.blocks && a != b ensures Far(a, b) {
      assert BlockApart(h, a, b);
    }
  }

  // ------------------------------------------------------------------ what link stores do to the tree

  function SetLink(m: seq<Byte>, a: nat, left: bool, v: nat): (r: seq<Byte>)
    requires a + HDR <= |m|
  {
    Store32(m, if left then a else a + 4, v)
  }

  function ClearLinks(m: seq<Byte>, a: nat): (r: seq<Byte>)
    requires a + HDR <= |m|
  {
    SetLink(SetLink(m, a, false, 0), a, true, 0)
  }

  /** Both memories hold the same headers outside the given set, and differ in links only. */
  ghost predicate LinkStep(m: seq<Byte>, r: seq<Byte>, keys: set<nat>, touched: set<nat>) {
    && Spaced(keys, |m|) && LinksOnly(m, r, keys)
    && forall b {:trigger InfoAt(r, b)} | b in keys && b !in touched :: InfoAt(r, b) == InfoAt(m, b)
  }

  lemma LinkStepTrans(m: seq<Byte>, r: seq<Byte>, q: seq<Byte>, keys: set<nat>, s: set<nat>, t: set<nat>)
    requires LinkStep(m, r, keys, s) && LinkStep(r, q, keys, t)
    ensures LinkStep(m, q, keys, s + t)
  {
    LinksOnlyTrans(m, r, q, keys);
  }

  /** Link stores outside the tree leave the tree as it is. */
  lemma ShapeFrame(m: seq<Byte>, r: seq<Byte>, root: nat, blocks: map<nat, Block>, tree: Tree, touched: set<nat>)
    requires Shape(m, root, blocks, tree) && LinkStep(m, r, blocks.Keys, touched) && touched !! Nodes(tree)
    ensures Shape(r, root, blocks, tree)
  {
    LinkedFrame(View(m, blocks.Keys), View(r, blocks.Keys), tree);
  }

  lemma ClearStep(m: seq<Byte>, keys: set<nat>, a: nat)
    requires Spaced(keys, |m|) && a in keys
    ensures LinkStep(m, ClearLinks(m, a), keys, {a})
    ensures InfoAt(ClearLinks(m, a), a) == InfoAt(m, a).(prev := 0, next := 0)
  {
    var r0 := SetLink(m, a, false, 0);
    StoreLink(m, keys, a, false, 0);
    StoreLink(r0, keys, a, true, 0);
    StoreLinkHere(m, a, false, 0);
    StoreLinkHere(r0, a, true, 0);
    LinkStepTrans(m, r0, ClearLinks(m, a), keys, {a}, {a});
    assert {a} + {a} == {a};
  }

  /** Clearing the links of a block outside the tree leaves the tree as it is. */
  lemma ClearShape(m: seq<Byte>, root: nat, blocks: map<nat, Block>, tree: Tree, a: nat)
    requires Shape(m, root, blocks, tree) && a in blocks && a !in Nodes(tree)
    ensures Shape(ClearLinks(m, a), root, blocks, tree)
    ensures LinkStep(m, ClearLinks(m, a), blocks.Keys, {a})
    ensures InfoAt(ClearLinks(m, a), a) == InfoAt(m, a).(prev := 0, next := 0)
  {
    ClearStep(m, blocks.Keys, a);
    ShapeFrame(m, ClearLinks(m, a), root, blocks, tree, {a});
  }

  /** One link store is a link step on its header. */
  lemma OneLink(m: seq<Byte>, keys: set<nat>, a: nat, left: bool, v: nat, touched: set<nat>)
    requires Spaced(keys, |m|) && a in keys && v < TWO32 && a in touched
    ensures LinkStep(m, SetLink(m, a, left, v), keys, touched)
  {
    StoreLink(m, keys, a, left, v);
  }

  /** Hanging a cleared block at the insertion point inserts it. */
  lemma HangShape(m: seq<Byte>, root: nat, blocks: map<nat, Block>, tree: Tree, a: nat, node: nat, left: bool)
    requires Shape(m, root, blocks, tree) && tree.Node? && a in blocks && a !in Nodes(tree) && a + HDR < TWO32
    requires InfoAt(m, a).prev == 0 && InfoAt(m, a).next == 0
    requires (node, left) == InsertPoint(tree, InfoAt(m, a).size)
    ensures Shape(SetLink(m, node, left, a + HDR), root, blocks, Insert(tree, a, InfoAt(m, a).size))
  {
    var size, keys := InfoAt(m, a).size, blocks.Keys;
    var h, r := View(m, keys), SetLink(m, node, left, a + HDR);
    assert h[a] == InfoAt(m, a);
    StoreLink(m, keys, node, left, a + HDR);
    InsertLinks(h, tree, a, size);
    InsertKeeps(tree, a, size);
    InsertShape(r, root, blocks, tree, Insert(tree, a, size));
  }

  lemma InsertShape(r: seq<Byte>, root: nat, blocks: map<nat, Block>, tree: Tree, bigger: Tree)
    requires |r| == TWO32 && Spaced(blocks.Keys, |r|) && tree.Node? && bigger.Node? && bigger.addr == tree.addr
    requires NoDup(bigger) && Ordered(bigger) && Nodes(bigger) <= blocks.Keys && root == PtrOf(tree)
    requires Linked(View(r, blocks.Keys), bigger)
    ensures Shape(r, root, blocks, bigger)
  {
  }

  /** The first block of an empty tree. */
  lemma FirstShape(m: seq<Byte>, blocks: map<nat, Block>, a: nat)
    requires Shape(m, 0, blocks, Leaf) && a in blocks
    requires InfoAt(m, a).prev == 0 && InfoAt(m, a).next == 0
    ensures Shape(m, a + HDR, blocks, Insert(Leaf, a, InfoAt(m, a).size))
  {
    assert View(m, blocks.Keys)[a] == InfoAt(m, a);
  }

  /** The header of a tree node holds its size and the pointers to its subtrees. */
  lemma RootInfo(m: seq<Byte>, root: nat, blocks: map<nat, Block>, tree: Tree)
    requires Shape(m, root, blocks, tree) && tree.Node?
    ensures var i := InfoAt(m, tree.addr);
      i.size == tree.size && i.prev == PtrOf(tree.left) && i.next == PtrOf(tree.right)
    ensures Shape(m, PtrOf(tree.left), blocks, tree.left)
    ensures Shape(m, PtrOf(tree.right), blocks, tree.right)
  {
    assert View(m, blocks.Keys)[tree.addr] == InfoAt(m, tree.addr);
  }

  /** Clearing the parent's link to x detaches x with its subtree, which stays linked. */
  lemma DetachShape(m: seq<Byte>, root: nat, blocks: map<nat, Block>, tree: Tree, p: nat, x: nat)
    requires Shape(m, root, blocks, tree) && ParentOf(tree, p, x)
    ensures p in blocks && x in Nodes(tree) && tree.addr != x
    ensures var left := InfoAt(m, p).prev == x + HDR;
      var r := SetLink(m, p, left, 0);
      && Shape(r, root, blocks, Detach(tree, x))
      && Shape(r, x + HDR, blocks, SubtreeAt(tree, x))
      && LinksOnly(m, r, blocks.Keys)
      && (left || InfoAt(m, p).next == x + HDR)
    ensures Nodes(Detach(tree, x)) !! Nodes(SubtreeAt(tree, x))
  {
    ParentInside(tree, p, x);
    SubtreeFacts(tree, x);
    DetachFacts(tree, x);
    ParentOutside(tree, p, x);
    DetachStep(m, root, blocks, tree, p, x);
    var r := SetLink(m, p, InfoAt(m, p).prev == x + HDR, 0);
    ShapeFrame(m, r, x + HDR, blocks, SubtreeAt(tree, x), {p});
  }

  /** The same, by name: the memory, the tree that is left, and the subtree taken out. */
  lemma DetachTo(m: seq<Byte>, root: nat, blocks: map<nat, Block>, tree: Tree, p: nat, x: nat, left: bool,
                 d: Tree, sub: Tree) returns (r: seq<Byte>)
    requires Shape(m, root, blocks, tree) && ParentOf(tree, p, x) && p in blocks
    requires left == (InfoAt(m, p).prev == x + HDR) && d == Detach(tree, x) && sub == SubtreeAt(tree, x)
    ensures r == SetLink(m, p, left, 0) && sub.Node? && sub.addr == x && tree.Node? && tree.addr != x
    ensures Shape(r, root, blocks, d) && Shape(r, x + HDR, blocks, sub) && LinksOnly(m, r, blocks.Keys)
    ensures Nodes(d) !! Nodes(sub)
  {
    DetachShape(m, root, blocks, tree, p, x);
    r := SetLink(m, p, left, 0);
  }

  lemma DetachStep(m: seq<Byte>, root: nat, blocks: map<nat, Block>, tree: Tree, p: nat, x: nat)
    requires Shape(m, root, blocks, tree) && ParentOf(tree, p, x) && p in blocks
    requires NoDup(Detach(tree, x)) && Ordered(Detach(tree, x)) && Nodes(Detach(tree, x)) <= Nodes(tree)
    requires NoDup(SubtreeAt(tree, x)) && Ordered(SubtreeAt(tree, x)) && Nodes(SubtreeAt(tree, x)) <= Nodes(tree)
    ensures var left := InfoAt(m, p).prev == x + HDR;
      var r := SetLink(m, p, left, 0);
      && Shape(r, root, blocks, Detach(tree, x)) && LinkStep(m, r, blocks.Keys, {p})
      && (left || InfoAt(m, p).next == x + HDR)
    ensures x in Nodes(tree) && tree.addr != x && Shape(m, x + HDR, blocks, SubtreeAt(tree, x))
  {
    var keys := blocks.Keys;
    assert View(m, keys)[p] == InfoAt(m, p);
    DetachLinks(View(m, keys), tree, p, x);
    StoreLink(m, keys, p, InfoAt(m, p).prev == x + HDR, 0);
    SubtreeLinks(View(m, keys), tree, x);
  }

  /** A parent is not below its child. */
  lemma {:induction false} ParentOutside(t: Tree, p: nat, x: nat)
    requires NoDup(t) && Ordered(t) && ParentOf(t, p, x)
    ensures x in Nodes(t) && p in Nodes(Detach(t, x))
  {
    ParentInside(t, p, x);
    if t.addr == p && ((t.left.Node? && t.left.addr == x) || (t.right.Node? && t.right.addr == x)) {
    } else if ParentOf(t.left, p, x) {
      ParentInside(t.left, p, x);
      ParentOutside(t.left, p, x);
    } else {
      ParentInside(t.right, p, x);
      ParentOutside(t.right, p, x);
    }
  }

  // ------------------------------------------------------------------ whole headers

  /** m and r agree everywhere but in header bytes of the given blocks. */
  ghost predicate HeadersOnly(m: seq<Byte>, r: seq<Byte>, keys: set<nat>) {
    && |m| == |r|
    && forall i | 0 <= i < |m| && m[i] != r[i] :: exists a :: a in keys && a <= i < a + 17
  }

  lemma HeadersOnlyTrans(m: seq<Byte>, r: seq<Byte>, q: seq<Byte>, s: set<nat>, t: set<nat>)
    requires HeadersOnly(m, r, s) && HeadersOnly(r, q, t)
    ensures HeadersOnly(m, q, s + t)
  {
    forall i | 0 <= i < |m| && m[i] != q[i] ensures exists a :: a in s + t && a <= i < a + 17 {
      if m[i] != r[i] {
        var a :| a in s && a <= i < a + 17;
        assert a in s + t;
      } else {
        var a :| a in t && a <= i < a + 17;
        assert a in s + t;
      }
    }
  }

  lemma LinksAreHeaders(m: seq<Byte>, r: seq<Byte>, keys: set<nat>)
    requires LinksOnly(m, r, keys)
    ensures HeadersOnly(m, r, keys)
  {
    forall i | 0 <= i < |m| && m[i] != r[i] ensures exists a :: a in keys && a <= i < a + 17 {
      var a :| a in keys && a <= i < a + 8;
      assert a <= i < a + 17;
    }
  }

  /** Stores into headers of g leave the payload of the live blocks of h alone. */
  lemma HeadersKeepPayload(m: seq<Byte>, r: seq<Byte>, h: Heap, g: Heap)
    requires HeadersOnly(m, r, g.blocks.Keys) && BlocksApart(g)
    requires forall a | a in h.blocks && h.blocks[a].live :: a in g.blocks && g.blocks[a].size == h.blocks[a].size
    ensures PayloadKept(m, r, h)
  {
    forall a, i | a in h.blocks && h.blocks[a].live && a + HDR <= i < End(h, a) && 0 <= i < |m| ensures r[i] == m[i] {
      forall b | b in g.blocks && b != a ensures !(b <= i < b + 17) {
        assert BlockApart(g, a, b);
      }
    }
  }

  /** The bytes allocMem writes: cleared links, sizes, state and use mark. */
  function WriteHeader(m: seq<Byte>, a: nat, b: Block): (r: seq<Byte>)
    requires a + HDR <= |m|
    ensures |r| == |m|
    ensures forall i | 0 <= i < |m| && !(a <= i < a + 17) :: r[i] == m[i]
  {
    var s := Store32(Store32(ClearLinks(m, a), a + 8, b.size), a + 12, b.size + HDR);
    s[a + 16 := if b.live then USED + 128 else FREED]
  }

  lemma WriteHeaderInfo(m: seq<Byte>, a: nat, b: Block)
    requires a + HDR <= |m| && b.size + HDR < TWO32
    ensures var i := InfoAt(WriteHeader(m, a, b), a);
      i.prev == 0 && i.next == 0 && HeaderSays(i, b)
  {
    var m0 := SetLink(m, a, false, 0);
    var m1 := ClearLinks(m, a);
    var m2 := Store32(m1, a + 8, b.size);
    var m3 := Store32(m2, a + 12, b.size + HDR);
    var r := WriteHeader(m, a, b);
    LoadStore(m, a + 4, 0);
    LoadStoreOther(m0, a, 0, a + 4);
    LoadStore(m0, a, 0);
    LoadStoreOther(m1, a + 8, b.size, a);
    LoadStoreOther(m1, a + 8, b.size, a + 4);
    LoadStore(m1, a + 8, b.size);
    LoadStoreOther(m2, a + 12, b.size + HDR, a);
    LoadStoreOther(m2, a + 12, b.size + HDR, a + 4);
    LoadStoreOther(m2, a + 12, b.size + HDR, a + 8);
    LoadSame(m3, r, a);
    LoadSame(m3, r, a + 4);
    LoadSame(m3, r, a + 8);
  }

  /** Headers of tree nodes unchanged: the tree stays, also when blocks are added. */
  lemma ShapeGrow(m: seq<Byte>, r: seq<Byte>, root: nat, blocks: map<nat, Block>, more: map<nat, Block>, tree: Tree)
    requires Shape(m, root, blocks, tree) && |r| == |m| && blocks.Keys <= more.Keys && Spaced(more.Keys, |m|)
    requires forall b | b in Nodes(tree) :: InfoAt(r, b) == InfoAt(m, b)
    ensures Shape(r, root, more, tree)
  {
    LinkedFrame(View(m, blocks.Keys), View(r, more.Keys), tree);
  }

  /** Writing the header of a block outside the tree, old or new. */
  lemma PlaceHeader(m: seq<Byte>, root: nat, blocks: map<nat, Block>, tree: Tree, a: nat, b: Block)
    requires Shape(m, root, blocks, tree) && HeadersMatch(m, blocks) && a !in Nodes(tree)
    requires a + HDR <= |m| && b.size + HDR < TWO32
    requires forall x | x in blocks && x != a :: Far(x, a)
    ensures var r := WriteHeader(m, a, b);
      && Shape(r, root, blocks[a := b], tree)
      && HeadersMatch(r, blocks[a := b])
      && HeadersOnly(m, r, {a})
  {
    WriteHeaderInfo(m, a, b);
    OneHeader(m, WriteHeader(m, a, b), root, blocks, tree, a, b);
  }

  /** r differs from m in the header at a, outside the tree, which now says b. */
  lemma OneHeader(m: seq<Byte>, r: seq<Byte>, root: nat, blocks: map<nat, Block>, tree: Tree, a: nat, b: Block)
    requires Shape(m, root, blocks, tree) && HeadersMatch(m, blocks) && a !in Nodes(tree)
    requires |r| == |m| && a + HDR <= |m| && HeaderSays(InfoAt(r, a), b)
    requires forall i | 0 <= i < |m| && !(a <= i < a + 17) :: r[i] == m[i]
    requires forall x | x in blocks && x != a :: Far(x, a)
    ensures Shape(r, root, blocks[a := b], tree) && HeadersMatch(r, blocks[a := b]) && HeadersOnly(m, r, {a})
  {
    forall x | x in blocks && x != a ensures InfoAt(r, x) == InfoAt(m, x) {
      InfoSame(m, r, x);
    }
    ShapeGrow(m, r, root, blocks, blocks[a := b], tree);
    HeaderAlone(m, r, a);
  }

  lemma HeaderAlone(m: seq<Byte>, r: seq<Byte>, a: nat)
    requires |r| == |m| && forall i | 0 <= i < |m| && !(a <= i < a + 17) :: r[i] == m[i]
    ensures HeadersOnly(m, r, {a})
  {
  }

  /** After link stores every header still says what its block is. */
  lemma LinksKeepHeaders(m: seq<Byte>, r: seq<Byte>, blocks: map<nat, Block>)
    requires LinksOnly(m, r, blocks.Keys) && Spaced(blocks.Keys, |m|) && HeadersMatch(m, blocks)
    ensures HeadersMatch(r, blocks)
  {
    forall a | a in blocks ensures HeaderSays(InfoAt(r, a), blocks[a]) {
      LinksOnlyKeeps(m, r, blocks.Keys, a);
    }
  }

  function FreedHeader(m: seq<Byte>, a: nat): (r: seq<Byte>)
    requires a + HDR <= |m|
    ensures |r| == |m|
    ensures forall i | 0 <= i < |m| && !(a <= i < a + 17) :: r[i] == m[i]
  {
    ClearLinks(m, a)[a + 16 := FREED]
  }

  lemma FreedInfo(m: seq<Byte>, a: nat)
    requires a + HDR <= |m|
    ensures var i := InfoAt(FreedHeader(m, a), a);
      i.size == InfoAt(m, a).size && i.state == FREED && i.used == 0
  {
    var m1 := ClearLinks(m, a);
    LoadSame(m, m1, a + 8);
    LoadSame(m1, FreedHeader(m, a), a + 8);
  }

  /** Marking a block freed (src/mm.cpp:515-518) changes its own header only. */
  lemma MarkFreed(m: seq<Byte>, root: nat, blocks: map<nat, Block>, tree: Tree, a: nat)
    requires Shape(m, root, blocks, tree) && HeadersMatch(m, blocks) && a in blocks && a !in Nodes(tree)
    ensures var r := FreedHeader(m, a);
      var marked := blocks[a := Block(blocks[a].size, false)];
      && Shape(r, root, marked, tree) && HeadersMatch(r, marked) && HeadersOnly(m, r, {a})
  {
    FreedInfo(m, a);
    forall x | x in blocks && x != a ensures Far(x, a) { assert Far(a, x); }
    OneHeader(m, FreedHeader(m, a), root, blocks, tree, a, Block(blocks[a].size, false));
  }

  /** A header change at one block followed by link stores. */
  lemma Retired(m: seq<Byte>, r: seq<Byte>, q: seq<Byte>, blocks: map<nat, Block>, a: nat)
    requires HeadersOnly(m, r, {a}) && LinksOnly(r, q, blocks.Keys) && a in blocks
    requires Spaced(blocks.Keys, |m|) && HeadersMatch(r, blocks)
    ensures HeadersMatch(q, blocks) && HeadersOnly(m, q, blocks.Keys)
  {
    LinksKeepHeaders(r, q, blocks);
    LinksAreHeaders(r, q, blocks.Keys);
    HeadersOnlyTrans(m, r, q, {a}, blocks.Keys);
    assert {a} + blocks.Keys == blocks.Keys;
  }

  /** The last step of an allocation: the header of the block at a is written. g is the sound
      heap it makes. */
  lemma HandedShape(q: seq<Byte>, root: nat, mid: map<nat, Block>, g: Heap, a: nat, b: Block)
    requires Shape(q, root, mid, g.tree) && HeadersMatch(q, mid)
    requires Inv(g) && g.blocks == mid[a := b] && a !in Nodes(g.tree)
    ensures a + HDR <= |q|
    ensures var r := WriteHeader(q, a, b);
      Shape(r, root, g.blocks, g.tree) && HeadersMatch(r, g.blocks) && HeadersOnly(q, r, {a})
  {
    InvSpaced(g);
    assert End(g, a) < TWO32;
    forall x | x in mid && x != a ensures Far(x, a) {
      assert x in g.blocks;
    }
    PlaceHeader(q, root, mid, g.tree, a, b);
  }

  /** Header changes from m to q and the new header at a leave the payload of h alone. */
  lemma HandedPayload(m: seq<Byte>, q: seq<Byte>, r: seq<Byte>, h: Heap, mid: set<nat>, g: Heap, a: nat, size: nat)
    requires HeadersOnly(m, q, mid) && HeadersOnly(q, r, {a}) && g.blocks.Keys == mid + {a}
    requires Inv(g) && Target(h, g, a + HDR, size)
    ensures PayloadKept(m, r, h)
  {
    HeadersOnlyTrans(m, q, r, mid, {a});
    HandedOut(h, g, a + HDR, size);
    HeadersKeepPayload(m, r, h, g);
  }

  lemma TailPlaced(m: seq<Byte>, root: nat, h: Heap)
    requires Inv(h) && TailUsable(h) && Shape(m, root, h.blocks, h.tree) && HeadersMatch(m, h.blocks)
    ensures h.top + HDR + 4 < h.max < TWO32 && h.top !in h.blocks && h.top !in Nodes(h.tree)
    ensures var nb := Block(TailSize(h.top, h.max), true);
      var r := WriteHeader(m, h.top, nb);
      && Shape(r, root, h.blocks[h.top := nb], h.tree)
      && HeadersMatch(r, h.blocks[h.top := nb])
      && HeadersOnly(m, r, {h.top})
  {
    TailFacts(h);
    NotABlock(h);
    PlaceHeader(m, root, h.blocks, h.tree, h.top, Block(TailSize(h.top, h.max), true));
  }

  /** The same, by name: the memory r and the blocks after the tail's header is written. */
  lemma TailTo(m: seq<Byte>, root: nat, h: Heap, nb: Block) returns (r: seq<Byte>, more: map<nat, Block>)
    requires Inv(h) && TailUsable(h) && Shape(m, root, h.blocks, h.tree) && HeadersMatch(m, h.blocks)
    requires nb == Block(TailSize(h.top, h.max), true)
    ensures h.top + HDR < TWO32 && h.top + HDR <= |m| && h.top !in Nodes(h.tree)
    ensures r == WriteHeader(m, h.top, nb) && more == h.blocks[h.top := nb]
    ensures Shape(r, root, more, h.tree) && HeadersMatch(r, more) && HeadersOnly(m, r, {h.top})
  {
    TailPlaced(m, root, h);
    r, more := WriteHeader(m, h.top, nb), h.blocks[h.top := nb];
  }

  /** Writing inside the payload of one block leaves every header as it is. */
  lemma PayloadWrite(m: seq<Byte>, r: seq<Byte>, root: nat, h: Heap, a: nat)
    requires Inv(h) && Shape(m, root, h.blocks, h.tree) && HeadersMatch(m, h.blocks) && a in h.blocks
    requires |r| == |m| && forall k | 0 <= k < |m| && !(a + HDR <= k < End(h, a)) :: r[k] == m[k]
    ensures Shape(r, root, h.blocks, h.tree) && HeadersMatch(r, h.blocks)
  {
    forall x | x in h.blocks ensures InfoAt(r, x) == InfoAt(m, x) {
      if x != a { assert BlockApart(h, a, x); }
      InfoSame(m, r, x);
    }
    ShapeGrow(m, r, root, h.blocks, h.blocks, h.tree);
  }

  /** A write to a range apart from every live extent keeps what was kept. */
  lemma PayloadThrough(m: seq<Byte>, q: seq<Byte>, r: seq<Byte>, h: Heap, lo: nat, hi: nat)
    requires PayloadKept(m, q, h) && |r| == |q|
    requires forall k | 0 <= k < |q| && !(lo <= k < hi) :: r[k] == q[k]
    requires forall b | b in h.blocks && h.blocks[b].live :: Apart(b, End(h, b), lo, hi)
    ensures PayloadKept(m, r, h)
  {
  }

  /** A safe allocation that ends by writing the header at a. */
  lemma AllocDone(h: Heap, m: seq<Byte>, q: seq<Byte>, root: nat, mid: map<nat, Block>,
                  size: nat, fast: bool, page: nat, a: nat)
    requires Inv(h) && size <= MAXREQ && PageOk(h, size, page) && AllocSafe(h, size, fast, page)
    requires var g := Alloc(h, size, fast, page);
      && g.1 == a + HDR && g.0.blocks == mid[a := Block(size, true)]
      && Shape(q, root, mid, g.0.tree) && HeadersMatch(q, mid) && HeadersOnly(m, q, mid.Keys)
    ensures a + HDR <= |q|
    ensures var g, r := Alloc(h, size, fast, page).0, WriteHeader(q, a, Block(size, true));
      && Inv(g) && Shape(r, root, g.blocks, g.tree) && HeadersMatch(r, g.blocks) && PayloadKept(m, r, h)
  {
    AllocInvIff(h, size, fast, page);
    AllocTarget(h, size, fast, page);
    HandedAll(h, m, q, root, mid, Alloc(h, size, fast, page).0, size, a);
  }

  lemma HandedAll(h: Heap, m: seq<Byte>, q: seq<Byte>, root: nat, mid: map<nat, Block>, g: Heap, size: nat, a: nat)
    requires Shape(q, root, mid, g.tree) && HeadersMatch(q, mid) && HeadersOnly(m, q, mid.Keys)
    requires Inv(g) && g.blocks == mid[a := Block(size, true)] && Target(h, g, a + HDR, size)
    ensures a + HDR <= |q|
    ensures var r := WriteHeader(q, a, Block(size, true));
      Shape(r, root, g.blocks, g.tree) && HeadersMatch(r, g.blocks) && PayloadKept(m, r, h)
  {
    HandedShape(q, root, mid, g, a, Block(size, true));
    HandedPayload(m, q, WriteHeader(q, a, Block(size, true)), h, mid.Keys, g, a, size);
  }

  /** Writing inside a block just handed out leaves the payload of the blocks before it alone. */
  lemma WriteHanded(m: seq<Byte>, q: seq<Byte>, r: seq<Byte>, h: Heap, g: Heap, ptr: nat, size: nat)
    requires Inv(g) && ptr != 0 && Target(h, g, ptr, size) && PayloadKept(m, q, h)
    requires |r| == |q| && forall k | 0 <= k < |q| && !(ptr <= k < ptr + size) :: r[k] == q[k]
    ensures PayloadKept(m, r, h)
  {
    HandedOut(h, g, ptr, size);
    PayloadThrough(m, q, r, h, ptr - HDR, ptr + size);
  }

  /** What was kept for h up to q, and for g after, when g has all live blocks of h. */
  lemma StillKept(m: seq<Byte>, q: seq<Byte>, r: seq<Byte>, h: Heap, g: Heap)
    requires PayloadKept(m, q, h) && PayloadKept(q, r, g)
    requires forall a | a in h.blocks && h.blocks[a].live :: a in g.blocks && g.blocks[a] == h.blocks[a]
    ensures PayloadKept(m, r, h)
  {
    forall a, i | a in h.blocks && h.blocks[a].live && a + HDR <= i < End(h, a) && 0 <= i < |m| ensures r[i] == m[i] {
      assert End(g, a) == End(h, a);
    }
  }

  /** A live payload that was kept reads the same. */
  lemma PayloadSlice(m: seq<Byte>, r: seq<Byte>, h: Heap, ptr: nat, n: nat)
    requires PayloadKept(m, r, h) && ptr != 0 && Known(h, ptr) && h.blocks[ptr - HDR].live
    requires n <= h.blocks[ptr - HDR].size && ptr + n <= |m|
    ensures m[ptr..ptr + n] == r[ptr..ptr + n]
  {
    assert forall i | ptr <= i < ptr + n :: r[i] == m[i];
  }

  /** What resizing promises: if ptr was live and q is a block, the first min(old, new) bytes
      behind q in r are those behind ptr in m. */
  ghost predicate Carried(m: seq<Byte>, r: seq<Byte>, h: Heap, ptr: nat, size: nat, q: nat)
    requires Known(h, ptr)
  {
    ptr != 0 && h.blocks[ptr - HDR].live && q != 0 ==>
      var n := Min(h.blocks[ptr - HDR].size, size);
      && q + n <= |r| && ptr + n <= |m|
      && r[q..q + n] == m[ptr..ptr + n]
  }

  lemma CarriedInPlace(m: seq<Byte>, h: Heap, ptr: nat, size: nat)
    requires Known(h, ptr) && BlocksApart(h) && |m| == TWO32
    ensures Carried(m, m, h, ptr, size, ptr)
  {
    InvSpaced(h);
    if ptr != 0 { assert End(h, ptr - HDR) < TWO32; }
  }
}
