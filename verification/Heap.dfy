/** The heap allocator over byte memory (src/mm.cpp): in-place header links, tree-descent loops,
    the bump region and the page requests, each method tied to the state machine of HeapModel. */
module Heap {
  import opened Basics
  import opened Bytes
  import opened FreeTree
  import opened HeapModel
  import opened HeapHeaders
  import opened Memory

  class MM {
    const ram: Ram
    var lastFree: nat  // __mm_last_free: payload pointer of the tree root, or 0
    var lastPage: nat
    var freeTop: nat
    var freeMax: nat
    ghost var blocks: map<nat, Block>
    ghost var tree: Tree
    ghost var pages: set<(nat, nat)>

    /** The abstract heap this object stands for. */
    ghost function Abs(): (h: HeapModel.Heap)
      reads this
    {
      HeapModel.Heap(blocks, tree, lastPage, freeTop, freeMax, pages)
    }

    ghost predicate Shaped()
      reads this, ram
    {
      Shape(ram.bytes, lastFree, blocks, tree)
    }

    ghost predicate Valid()
      reads this, ram
    {
      Inv(Abs()) && Shaped() && HeadersMatch(ram.bytes, blocks)
    }

    constructor (memory: Ram)
      requires |memory.bytes| == TWO32
      ensures Valid() && Abs() == EMPTY && ram == memory
    {
      ram := memory;
      lastFree, lastPage, freeTop, freeMax := 0, 0, 0, 0;
      blocks, tree, pages := map[], Leaf, {};
    }

    /** The descent of treeAdd: the node, and the side, where a block of this size belongs. */
    method FindSlot(size: nat) returns (node: nat, left: bool)
      requires Shaped() && tree.Node?
      ensures (node, left) == InsertPoint(tree, size)
    {
      node := lastFree - HDR;
      ghost var sub := tree;
      while true
        invariant Shape(ram.bytes, node + HDR, blocks, sub) && sub.Node?
        invariant InsertPoint(sub, size) == InsertPoint(tree, size)
        decreases sub
      {
        RootInfo(ram.bytes, node + HDR, blocks, sub);
        var info := InfoAt(ram.bytes, node);
        left := size < info.size;
        var link := if left then info.prev else info.next;
        if link == 0 { return; }
        node := link - HDR;
        sub := if left then sub.left else sub.right;
      }
    }

    /** treeAdd (src/mm.cpp:173-239): descend by size and hang the block below a leaf. */
    method TreeAdd(cur: nat)
      requires Shaped() && cur in blocks && cur !in Nodes(tree) && cur + HDR < TWO32
      modifies ram, `lastFree, `tree
      ensures Shaped()
      ensures tree == Insert(old(tree), cur, old(InfoAt(ram.bytes, cur).size))
      ensures LinkStep(old(ram.bytes), ram.bytes, blocks.Keys, {cur} + old(Nodes(tree)))
    {
      ClearShape(ram.bytes, lastFree, blocks, tree, cur);
      ghost var m0 := ram.bytes;
      ram.bytes := ClearLinks(ram.bytes, cur);
      HangCleared(cur, m0);
    }

    /** The part of treeAdd after the links are cleared. */
    method HangCleared(cur: nat, ghost m0: seq<Byte>)
      requires Shaped() && cur in blocks && cur !in Nodes(tree) && cur + HDR < TWO32
      requires InfoAt(ram.bytes, cur).prev == 0 && InfoAt(ram.bytes, cur).next == 0
      requires LinkStep(m0, ram.bytes, blocks.Keys, {cur})
      modifies ram, `lastFree, `tree
      ensures Shaped()
      ensures tree == Insert(old(tree), cur, old(InfoAt(ram.bytes, cur).size))
      ensures LinkStep(m0, ram.bytes, blocks.Keys, {cur} + old(Nodes(tree)))
    {
      ghost var m1 := ram.bytes;
      var size := InfoAt(ram.bytes, cur).size;
      if lastFree == 0 {
        FirstShape(m1, blocks, cur);
        lastFree := cur + HDR;
      } else {
        var node, left := FindSlot(size);
        HangShape(m1, lastFree, blocks, tree, cur, node, left);
        OneLink(m1, blocks.Keys, node, left, cur + HDR, Nodes(tree));
        ram.bytes := SetLink(ram.bytes, node, left, cur + HDR);
        LinkStepTrans(m0, m1, ram.bytes, blocks.Keys, {cur}, Nodes(tree));
      }
      tree := Insert(tree, cur, size);
    }

    /** releaseFree (src/mm.cpp:241-300). p is the header address, parent that of its parent. */
    method ReleaseFree(p: nat, parent: Option<nat>)
      requires Shaped() && p in Nodes(tree) && (forall a | a in blocks :: a + HDR < TWO32)
      requires parent.None? ==> tree.addr == p
      requires parent.Some? ==> ParentOf(tree, parent.value, p)
      modifies ram, `lastFree, `tree
      ensures Shaped() && tree == Release(old(tree), p)
      ensures LinksOnly(old(ram.bytes), ram.bytes, blocks.Keys)
    {
      ghost var m0 := ram.bytes;
      ReleaseExact(tree, p);
      if parent.None? {
        ReleaseRoot(p);
      } else {
        ReleaseChild(p, parent.value);
      }
      ghost var m1 := ram.bytes;
      ClearShape(m1, lastFree, blocks, tree, p);
      ram.bytes := ClearLinks(ram.bytes, p);
      LinksOnlyTrans(m0, m1, ram.bytes, blocks.Keys);
    }

    /** The released block is the root (src/mm.cpp:256-271). */
    method ReleaseRoot(p: nat)
      requires Shaped() && tree.Node? && tree.addr == p && (forall a | a in blocks :: a + HDR < TWO32)
      modifies ram, `lastFree, `tree
      ensures Shaped() && tree == Release(old(tree), p)
      ensures LinksOnly(old(ram.bytes), ram.bytes, blocks.Keys)
    {
      RootInfo(ram.bytes, lastFree, blocks, tree);
      var info := InfoAt(ram.bytes, p);
      if info.prev == 0 && info.next != 0 {
        lastFree := info.next;
        tree := tree.right;
      } else if info.prev != 0 && info.next == 0 {
        lastFree := info.prev;
        tree := tree.left;
      } else if info.prev != 0 && info.next != 0 {
        RootInfo(ram.bytes, info.prev, blocks, tree.left);
        lastFree := info.next;
        tree := tree.right;
        TreeAdd(info.prev - HDR);
      } else {
        lastFree := 0;
        tree := Leaf;
      }
    }

    /** The released block has a parent (src/mm.cpp:272-288). */
    method ReleaseChild(p: nat, parent: nat)
      requires Shaped() && p in Nodes(tree) && ParentOf(tree, parent, p) && (forall a | a in blocks :: a + HDR < TWO32)
      modifies ram, `lastFree, `tree
      ensures Shaped() && tree == Release(old(tree), p)
      ensures LinksOnly(old(ram.bytes), ram.bytes, blocks.Keys)
    {
      ghost var m0, d, sub := ram.bytes, Detach(tree, p), SubtreeAt(tree, p);
      CutOff(p, parent, d, sub);
      ghost var m1 := ram.bytes;
      ReaddChildren(p, sub);
      LinksOnlyTrans(m0, m1, ram.bytes, blocks.Keys);
    }

    /** The parent's link to the block is cleared. */
    method CutOff(p: nat, parent: nat, ghost d: Tree, ghost sub: Tree)
      requires Shaped() && ParentOf(tree, parent, p) && d == Detach(tree, p) && sub == SubtreeAt(tree, p)
      modifies ram, `tree
      ensures tree == d && old(tree.Node? && tree.addr != p) && sub.Node? && sub.addr == p
      ensures Shaped() && Shape(ram.bytes, p + HDR, blocks, sub)
      ensures Nodes(d) !! Nodes(sub) && LinksOnly(old(ram.bytes), ram.bytes, blocks.Keys)
    {
      ParentInside(tree, parent, p);
      var left := InfoAt(ram.bytes, parent).prev == p + HDR;
      ghost var m1 := DetachTo(ram.bytes, lastFree, blocks, tree, parent, p, left, d, sub);
      ram.bytes := SetLink(ram.bytes, parent, left, 0);
      tree := d;
    }

    /** The children of the detached block go back in, each as a single node. */
    method ReaddChildren(p: nat, ghost sub: Tree)
      requires Shaped() && Shape(ram.bytes, p + HDR, blocks, sub) && sub.Node? && sub.addr == p
      requires Nodes(tree) !! Nodes(sub) && (forall a | a in blocks :: a + HDR < TWO32)
      modifies ram, `lastFree, `tree
      ensures Shaped() && tree == Readd(Readd(old(tree), sub.left), sub.right)
      ensures LinksOnly(old(ram.bytes), ram.bytes, blocks.Keys)
    {
      ghost var m1 := ram.bytes;
      RootInfo(m1, p + HDR, blocks, sub);
      ReaddOne(InfoAt(ram.bytes, p).prev, sub.left);
      ghost var m2 := ram.bytes;
      assert InfoAt(m2, p) == InfoAt(m1, p);
      ShapeFrame(m1, m2, PtrOf(sub.right), blocks, sub.right, RootOf(sub.left) + old(Nodes(tree)));
      ReaddOne(InfoAt(ram.bytes, p).next, sub.right);
      LinksOnlyTrans(m1, m2, ram.bytes, blocks.Keys);
    }

    method ReaddOne(ptr: nat, ghost child: Tree)
      requires Shaped() && Shape(ram.bytes, ptr, blocks, child) && Nodes(tree) !! Nodes(child)
      requires forall a | a in blocks :: a + HDR < TWO32
      modifies ram, `lastFree, `tree
      ensures Shaped() && tree == Readd(old(tree), child)
      ensures LinkStep(old(ram.bytes), ram.bytes, blocks.Keys, RootOf(child) + old(Nodes(tree)))
    {
      if ptr != 0 {
        RootInfo(ram.bytes, ptr, blocks, child);
        TreeAdd(ptr - HDR);
      }
    }

    /** The walk of findAvail, side branches into the opposite subtree included. */
    method Locate(size: nat) returns (r: Option<Hit>)
      requires Shaped()
      ensures r == Search(tree, None, size)
    {
      if lastFree == 0 { return None; }
      var parent: Option<nat> := None;
      var a: nat := lastFree - HDR;
      ghost var sub := tree;
      while true
        invariant sub.Node? && Shape(ram.bytes, a + HDR, blocks, sub)
        invariant Search(sub, parent, size) == Search(tree, None, size)
        decreases sub
      {
        RootInfo(ram.bytes, a + HDR, blocks, sub);
        var info := InfoAt(ram.bytes, a);
        if info.size == size { return Some(Hit(a, parent)); }
        var go, left := Choose(a, size, sub, parent);
        if !go { return None; }
        parent := Some(a);
        a := (if left then info.prev else info.next) - HDR;
        sub := if left then sub.left else sub.right;
      }
    }

    /** One turn of the walk at a block of another size: whether to go on, and to which side. */
    method Choose(a: nat, size: nat, ghost sub: Tree, ghost parent: Option<nat>) returns (go: bool, left: bool)
      requires sub.Node? && Shape(ram.bytes, a + HDR, blocks, sub) && sub.size != size
      ensures !go ==> Search(sub, parent, size) == None
      ensures go ==> (if left then sub.left else sub.right).Node?
      ensures go ==> Search(sub, parent, size) == Search(if left then sub.left else sub.right, Some(a), size)
    {
      RootInfo(ram.bytes, a + HDR, blocks, sub);
      var info := InfoAt(ram.bytes, a);
      if sub.left.Node? { RootInfo(ram.bytes, info.prev, blocks, sub.left); }
      if sub.right.Node? { RootInfo(ram.bytes, info.next, blocks, sub.right); }
      if size < info.size {
        left := info.prev != 0;
        go := left || (info.next != 0 && size <= InfoAt(ram.bytes, info.next - HDR).size);
      } else {
        left := info.next == 0;
        go := !left || (info.prev != 0 && size >= InfoAt(ram.bytes, info.prev - HDR).size);
      }
    }

    /** findAvail (src/mm.cpp:302-338): the header address of a block of exactly this size, taken
        out of the tree, or 0. */
    method FindAvail(size: nat) returns (a: nat)
      requires Shaped() && (forall b | b in blocks :: 0 < b && b + HDR < TWO32)
      modifies ram, `lastFree, `tree
      ensures Shaped() && LinksOnly(old(ram.bytes), ram.bytes, blocks.Keys)
      ensures Search(old(tree), None, size).None? ==>
                a == 0 && tree == old(tree) && lastFree == old(lastFree) && ram.bytes == old(ram.bytes)
      ensures Search(old(tree), None, size).Some? ==>
                a != 0 && a == Search(old(tree), None, size).value.addr && tree == Release(old(tree), a)
    {
      var hit := Locate(size);
      if hit.None? { return 0; }
      a := hit.value.addr;
      SearchParent(tree, None, size);
      ReleaseFree(a, hit.value.parent);
    }

    /** freeNoLock (src/mm.cpp:494-530): null, unused and already freed blocks are refused. */
    method FreeNoLock(ptr: nat) returns (ok: bool)
      requires Shaped() && HeadersMatch(ram.bytes, blocks) && Known(Abs(), ptr) && ptr < TWO32
      requires forall a | a in blocks && blocks[a].live :: a !in Nodes(tree)
      modifies ram, `lastFree, `tree, `blocks
      ensures Shaped() && HeadersMatch(ram.bytes, blocks)
      ensures (Abs(), ok) == HeapModel.Free(old(Abs()), ptr)
      ensures HeadersOnly(old(ram.bytes), ram.bytes, blocks.Keys)
    {
      if ptr == 0 { return false; }
      var cur := ptr - HDR;
      var info := InfoAt(ram.bytes, cur);
      if info.used == 0 || info.state == FREED || info.state != USED { return false; }
      Retire(cur);
      ok := true;
    }

    /** The accepted part of freeNoLock: mark the header, put the block into the tree. */
    method Retire(cur: nat)
      requires Shaped() && HeadersMatch(ram.bytes, blocks) && cur in blocks && cur !in Nodes(tree) && cur + HDR < TWO32
      modifies ram, `lastFree, `tree, `blocks
      ensures Shaped() && HeadersMatch(ram.bytes, blocks)
      ensures Abs() == FreeBlock(old(Abs()), cur)
      ensures HeadersOnly(old(ram.bytes), ram.bytes, blocks.Keys)
    {
      ghost var m0 := ram.bytes;
      Mark(cur);
      ghost var m1 := ram.bytes;
      TreeAdd(cur);
      Retired(m0, m1, ram.bytes, blocks, cur);
    }

    /** The header of a freed block: no links, state freed, not used (src/mm.cpp:515-518). */
    method Mark(cur: nat)
      requires Shaped() && HeadersMatch(ram.bytes, blocks) && cur in blocks && cur !in Nodes(tree)
      modifies ram, `blocks
      ensures blocks == old(blocks)[cur := Block(old(blocks)[cur].size, false)]
      ensures Shaped() && HeadersMatch(ram.bytes, blocks) && HeadersOnly(old(ram.bytes), ram.bytes, {cur})
      ensures InfoAt(ram.bytes, cur).size == old(blocks)[cur].size
    {
      MarkFreed(ram.bytes, lastFree, blocks, tree, cur);
      FreedInfo(ram.bytes, cur);
      ram.bytes := FreedHeader(ram.bytes, cur);
      blocks := blocks[cur := Block(blocks[cur].size, false)];
    }

    /** The leftover of the bump region becomes a block that is freed at once
        (src/mm.cpp:394-404). */
    method GiveTail()
      requires Valid() && TailUsable(Abs())
      modifies ram, `lastFree, `tree, `blocks
      ensures Shaped() && HeadersMatch(ram.bytes, blocks)
      ensures Abs() == FreeTail(old(Abs()))
      ensures HeadersOnly(old(ram.bytes), ram.bytes, blocks.Keys)
    {
      ghost var m0 := ram.bytes;
      ghost var h := Abs();
      PlaceTail();
      ghost var m1 := ram.bytes;
      FreeTailIsFree(h, Abs());
      Retire(freeTop);
      HeadersOnlyTrans(m0, m1, ram.bytes, {freeTop}, blocks.Keys);
      assert {freeTop} + blocks.Keys == blocks.Keys;
    }

    method PlaceTail()
      requires Valid() && TailUsable(Abs())
      modifies ram, `blocks
      ensures blocks == old(blocks)[freeTop := Block(TailSize(freeTop, freeMax), true)]
      ensures Shaped() && HeadersMatch(ram.bytes, blocks)
      ensures freeTop !in Nodes(tree) && freeTop + HDR < TWO32
      ensures HeadersOnly(old(ram.bytes), ram.bytes, {freeTop})
    {
      var nb := Block(TailSize(freeTop, freeMax), true);
      ghost var r, more := TailTo(ram.bytes, lastFree, Abs(), nb);
      ram.bytes := WriteHeader(ram.bytes, freeTop, nb);
      blocks := more;
    }

    /** The state machine's answer g to an allocation from h, with the header of the block at a
        still to be written. */
    ghost predicate Pending(g: HeapModel.Heap, a: nat, size: nat)
      reads this
    {
      && blocks[a := Block(size, true)] == g.blocks
      && tree == g.tree && lastPage == g.lastPage && freeTop == g.top && freeMax == g.max && pages == g.pages
    }

    /** A new page becomes the bump region (src/mm.cpp:379-415). */
    method NewPage(size: nat, page: nat) returns (a: nat)
      requires Valid() && size <= MAXREQ && !Fits(Abs(), size) && page != 0 && PageOk(Abs(), size, page)
      modifies this, ram
      ensures a == page && Shaped() && HeadersMatch(ram.bytes, blocks)
      ensures HeadersOnly(old(ram.bytes), ram.bytes, blocks.Keys)
      ensures Pending(HeapModel.Alloc(old(Abs()), size, true, page).0, a, size)
    {
      if lastPage != 0 && freeTop != 0 && freeMax != 0 && Wrap(freeTop + HDR + 4) < freeMax {
        GiveTail();
      }
      lastPage := page;
      freeMax := Wrap(page + PageCount(size + HDR) * PAGE);
      pages := pages + {(page, page + PageCount(size + HDR) * PAGE)};
      freeTop := Wrap(page + size + HDR);
      a := page;
    }

    /** A block outside the tree: from the bump region or from new pages (src/mm.cpp:378-422). r is
        the state machine's answer, safe whether neither hazard applies. */
    method FromRegion(size: nat, page: nat, ghost r: (HeapModel.Heap, nat), ghost safe: bool) returns (a: nat)
      requires Valid() && size <= MAXREQ && PageOk(Abs(), size, page)
      requires r == HeapModel.Alloc(Abs(), size, true, page) && safe == AllocSafe(Abs(), size, true, page)
      modifies this, ram
      ensures if a == 0 then Abs() == r.0 && r.1 == 0 else a + HDR == r.1 && Pending(r.0, a, size)
      ensures |ram.bytes| == TWO32 && a + HDR <= TWO32
      ensures safe ==> Shaped() && HeadersMatch(ram.bytes, blocks)
      ensures safe ==> HeadersOnly(old(ram.bytes), ram.bytes, blocks.Keys)
      ensures safe && a == 0 ==> Valid() && ram.bytes == old(ram.bytes)
    {
      if lastPage == 0 || freeTop == 0 || freeMax == 0 || Wrap(freeTop + size + HDR) >= freeMax {
        if page == 0 {
          if lastPage != 0 && freeTop != 0 && freeMax != 0 && Wrap(freeTop + HDR + 4) < freeMax {
            GiveTail();
          }
          return 0;
        }
        a := NewPage(size, page);
      } else {
        a := freeTop;
        freeTop := Wrap(freeTop + size + HDR);
      }
    }

    /** allocMem up to the header write: a block from the tree if one has exactly this size. */
    method Obtain(size: nat, fast: bool, page: nat, ghost r: (HeapModel.Heap, nat), ghost safe: bool) returns (a: nat)
      requires Valid() && size <= MAXREQ && PageOk(Abs(), size, page)
      requires r == HeapModel.Alloc(Abs(), size, fast, page) && safe == AllocSafe(Abs(), size, fast, page)
      modifies this, ram
      ensures if a == 0 then Abs() == r.0 && r.1 == 0 else a + HDR == r.1 && Pending(r.0, a, size)
      ensures |ram.bytes| == TWO32 && a + HDR <= TWO32
      ensures safe ==> Shaped() && HeadersMatch(ram.bytes, blocks)
      ensures safe ==> HeadersOnly(old(ram.bytes), ram.bytes, blocks.Keys)
      ensures safe && a == 0 ==> Valid() && ram.bytes == old(ram.bytes)
    {
      if !fast {
        a := FromTree(size, page, r);
        if a != 0 { return; }
      }
      a := FromRegion(size, page, r, safe);
    }

    /** The tree part: an exact fit, or nothing changes and the answer is the one without a tree. */
    method FromTree(size: nat, ghost page: nat, ghost r: (HeapModel.Heap, nat)) returns (a: nat)
      requires Valid() && size <= MAXREQ && r == HeapModel.Alloc(Abs(), size, false, page)
      modifies ram, `lastFree, `tree
      ensures Shaped() && HeadersMatch(ram.bytes, blocks) && HeadersOnly(old(ram.bytes), ram.bytes, blocks.Keys)
      ensures a != 0 ==> a + HDR == r.1 && Pending(r.0, a, size) && a + HDR <= TWO32
      ensures a == 0 ==> Valid() && Abs() == old(Abs()) && ram.bytes == old(ram.bytes)
      ensures a == 0 ==> r == HeapModel.Alloc(Abs(), size, true, page)
      ensures a == 0 ==> AllocSafe(Abs(), size, true, page) == AllocSafe(Abs(), size, false, page)
    {
      ghost var m0 := ram.bytes;
      InvSpaced(Abs());
      a := FindAvail(size);
      LinksAreHeaders(m0, ram.bytes, blocks.Keys);
      LinksKeepHeaders(m0, ram.bytes, blocks);
    }

    /** allocMem (src/mm.cpp:340-438). page is what allocPage answers if it is asked, 0 for a
        failure. The new state is the one of the state machine; memory stays in step with it,
        and no payload byte of a live block changes, unless one of the two hazards applies. */
    method AllocMem(size: nat, fast: bool, page: nat) returns (ptr: nat)
      requires Valid() && size <= MAXREQ && PageOk(Abs(), size, page)
      modifies this, ram
      ensures (Abs(), ptr) == HeapModel.Alloc(old(Abs()), size, fast, page)
      ensures AllocSafe(old(Abs()), size, fast, page) ==>
                Valid() && PayloadKept(old(ram.bytes), ram.bytes, old(Abs()))
    {
      ghost var r, safe := HeapModel.Alloc(Abs(), size, fast, page), AllocSafe(Abs(), size, fast, page);
      ptr := Hand(size, fast, page, r, safe);
    }

    /** The same, for the answer r. */
    method Hand(size: nat, fast: bool, page: nat, ghost r: (HeapModel.Heap, nat), ghost safe: bool) returns (ptr: nat)
      requires Valid() && size <= MAXREQ && PageOk(Abs(), size, page)
      requires r == HeapModel.Alloc(Abs(), size, fast, page) && safe == AllocSafe(Abs(), size, fast, page)
      modifies this, ram
      ensures Abs() == r.0 && ptr == r.1
      ensures safe ==> Valid() && PayloadKept(old(ram.bytes), ram.bytes, old(Abs()))
    {
      ghost var h, m0 := Abs(), ram.bytes;
      var a := Obtain(size, fast, page, r, safe);
      if a == 0 { return 0; }
      Stamp(h, m0, a, size, fast, page, r, safe);
      ptr := a + HDR;
    }

    /** The header write that ends allocMem (src/mm.cpp:429-435). */
    method Stamp(ghost h: HeapModel.Heap, ghost m0: seq<Byte>, a: nat, size: nat, ghost fast: bool, ghost page: nat,
                 ghost r: (HeapModel.Heap, nat), ghost safe: bool)
      requires Inv(h) && size <= MAXREQ && PageOk(h, size, page)
      requires r == HeapModel.Alloc(h, size, fast, page) && safe == AllocSafe(h, size, fast, page)
      requires |ram.bytes| == TWO32 && a + HDR <= TWO32
      requires r.1 == a + HDR && Pending(r.0, a, size)
      requires safe ==> Shaped() && HeadersMatch(ram.bytes, blocks) && HeadersOnly(m0, ram.bytes, blocks.Keys)
      modifies ram, `blocks
      ensures Abs() == r.0
      ensures safe ==> Valid() && PayloadKept(m0, ram.bytes, h)
    {
      if safe {
        AllocDone(h, m0, ram.bytes, lastFree, blocks, size, fast, page, a);
      }
      ram.bytes := WriteHeader(ram.bytes, a, Block(size, true));
      blocks := blocks[a := Block(size, true)];
    }

    /** MM::alloc for the normal and fast kinds (src/mm.cpp:457-492). */
    method Alloc(size: nat, fast: bool, page: nat) returns (ptr: nat)
      requires Valid() && (size <= MAXREQ ==> PageOk(Abs(), size, page))
      modifies this, ram
      ensures (Abs(), ptr) == AllocCall(old(Abs()), size, fast, page)
      ensures AllocOk(old(Abs()), size, fast, page) ==>
                Valid() && Target(old(Abs()), Abs(), ptr, size) && PayloadKept(old(ram.bytes), ram.bytes, old(Abs()))
    {
      if AllocOk(Abs(), size, fast, page) { CallTarget(Abs(), size, fast, page); }
      if size > MAXREQ { return 0; }
      ptr := AllocMem(size, fast, page);
    }

    /** MM::free (src/mm.cpp:532-542). */
    method Free(ptr: nat) returns (ok: bool)
      requires Valid() && Known(Abs(), ptr)
      modifies ram, `lastFree, `tree, `blocks
      ensures Valid() && (Abs(), ok) == HeapModel.Free(old(Abs()), ptr)
      ensures PayloadKept(old(ram.bytes), ram.bytes, old(Abs()))
    {
      ghost var h, m0 := Abs(), ram.bytes;
      InvSpaced(h);
      FreeGrows(h, ptr);
      assert ptr != 0 ==> ptr <= End(h, ptr - HDR);
      ok := FreeNoLock(ptr);
      HeadersKeepPayload(m0, ram.bytes, h, Abs());
    }

    /** Clears a payload byte by byte (src/mm.cpp:450-452). */
    method Clear(ptr: nat, size: nat)
      requires Valid() && ptr != 0 && Known(Abs(), ptr) && blocks[ptr - HDR].size == size
      modifies ram
      ensures Valid() && ptr + size <= |ram.bytes|
      ensures forall k | ptr <= k < ptr + size :: ram.bytes[k] == 0
      ensures forall k | 0 <= k < |ram.bytes| && !(ptr <= k < ptr + size) :: ram.bytes[k] == old(ram.bytes)[k]
    {
      InvSpaced(Abs());
      assert End(Abs(), ptr - HDR) == ptr + size;
      ghost var m1 := ram.bytes;
      for i := 0 to size
        invariant |ram.bytes| == |m1|
        invariant forall k | 0 <= k < |m1| && !(ptr <= k < ptr + size) :: ram.bytes[k] == m1[k]
        invariant forall k | ptr <= k < ptr + i :: ram.bytes[k] == 0
      {
        ram.bytes := ram.bytes[ptr + i := 0];
      }
      PayloadWrite(m1, ram.bytes, lastFree, Abs(), ptr - HDR);
    }

    /** allocMemClear (src/mm.cpp:440-455): allocate, then clear the payload. */
    method AllocClear(size: nat, page: nat) returns (ptr: nat)
      requires Valid() && Answerable(Abs(), size, false, page)
      modifies this, ram
      ensures (Abs(), ptr) == AllocCall(old(Abs()), size, false, page)
      ensures AllocOk(old(Abs()), size, false, page) ==>
                Valid() && PayloadKept(old(ram.bytes), ram.bytes, old(Abs()))
      ensures ptr != 0 ==> ptr + size <= |ram.bytes| && forall k | ptr <= k < ptr + size :: ram.bytes[k] == 0
    {
      ghost var h, m0 := Abs(), ram.bytes;
      ptr := Alloc(size, false, page);
      if ptr == 0 { return; }
      ghost var m1 := ram.bytes;
      Clear(ptr, size);
      WriteHanded(m0, m1, ram.bytes, h, Abs(), ptr, size);
    }

    /** Copies n bytes of one block to another with Mem::move. */
    method MovePrefix(dest: nat, src: nat, n: nat)
      requires Valid() && dest != 0 && src != 0 && Known(Abs(), dest) && Known(Abs(), src)
      requires n <= blocks[dest - HDR].size && n <= blocks[src - HDR].size
      modifies ram
      ensures Valid() && |ram.bytes| == old(|ram.bytes|) && dest + n <= |ram.bytes| && src + n <= |ram.bytes|
      ensures ram.bytes == Moved(old(ram.bytes), dest, src, n)
    {
      InvSpaced(Abs());
      assert End(Abs(), dest - HDR) >= dest + n && End(Abs(), src - HDR) >= src + n;
      ghost var m1 := ram.bytes;
      var r := Move(ram, dest, src, n);
      MovedInto(m1, ram.bytes, lastFree, Abs(), dest, src, n);
    }

    /** The end of realloc (src/mm.cpp:570-578): move the common prefix, free the old block. */
    method MoveOver(ghost h: HeapModel.Heap, ghost m0: seq<Byte>, ptr: nat, q: nat, oldSize: nat, size: nat)
      requires Valid() && q != 0 && Target(h, Abs(), q, size) && PayloadKept(m0, ram.bytes, h)
      requires ptr != 0 && Known(h, ptr) && h.blocks[ptr - HDR] == Block(oldSize, true)
      modifies ram, `lastFree, `tree, `blocks
      ensures Valid() && Abs() == HeapModel.Free(old(Abs()), ptr).0
      ensures PayloadKept(m0, ram.bytes, h)
      ensures Carried(m0, ram.bytes, h, ptr, size, q)
    {
      var n := Min(oldSize, size);
      ghost var g, m1 := Abs(), ram.bytes;
      HandedOut(h, g, q, size);
      MovePrefix(q, ptr, n);
      ghost var m2 := ram.bytes;
      var ok := Free(ptr);
      MovedKept(m0, m1, m2, h, g, ptr, q, n, size);
      CarriedOver(m0, m1, m2, ram.bytes, h, g, ptr, q, n, oldSize, size);
    }

    /** MM::realloc (src/mm.cpp:544-581). A live block resized to a nonzero size keeps its first
        min(old, new) bytes, no live payload changes, and what is returned is a block in use of the size
        asked for, unless it is a freed block of that size given back as it is. */
    method Realloc(ptr: nat, size: nat, page: nat) returns (q: nat)
      requires Valid() && Known(Abs(), ptr)
      requires Allocates(Abs(), ptr, size) ==> Answerable(Abs(), size, false, page)
      modifies this, ram
      ensures (Abs(), q) == HeapModel.Realloc(old(Abs()), ptr, size, page)
      ensures OpOk(old(Abs()), ReallocOp(ptr, size, page)) ==>
                && Valid() && PayloadKept(old(ram.bytes), ram.bytes, old(Abs()))
                && Carried(old(ram.bytes), ram.bytes, old(Abs()), ptr, size, q)
                && Returned(old(Abs()), Abs(), ptr, size, q)
    {
      if OpOk(Abs(), ReallocOp(ptr, size, page)) { ReallocAnswer(Abs(), ptr, size, page); }
      q := Resize(ptr, size, page);
    }

    method Resize(ptr: nat, size: nat, page: nat) returns (q: nat)
      requires Valid() && Known(Abs(), ptr)
      requires Allocates(Abs(), ptr, size) ==> Answerable(Abs(), size, false, page)
      modifies this, ram
      ensures (Abs(), q) == HeapModel.Realloc(old(Abs()), ptr, size, page)
      ensures OpOk(old(Abs()), ReallocOp(ptr, size, page)) ==>
                && Valid() && PayloadKept(old(ram.bytes), ram.bytes, old(Abs()))
                && Carried(old(ram.bytes), ram.bytes, old(Abs()), ptr, size, q)
    {
      ghost var h, m0 := Abs(), ram.bytes;
      if size == 0 && ptr != 0 {
        var ok := Free(ptr);
        return 0;
      }
      var oldSize, live := 0, false;
      if ptr != 0 {
        var info := InfoAt(ram.bytes, ptr - HDR);
        if info.size == size {
          CarriedInPlace(m0, h, ptr, size);
          return ptr;
        }
        oldSize, live := info.size, info.state != FREED;
        assert h.blocks[ptr - HDR] == Block(oldSize, live);
      }
      q := Replace(ptr, oldSize, live, size, page);
    }

    /** The part of realloc that allocates a new block (src/mm.cpp:563-580). */
    method Replace(ptr: nat, oldSize: nat, live: bool, size: nat, page: nat) returns (q: nat)
      requires Valid() && Known(Abs(), ptr) && Answerable(Abs(), size, false, page)
      requires if ptr == 0 then !live else blocks[ptr - HDR] == Block(oldSize, live)
      modifies this, ram
      ensures var (g, p) := AllocCall(old(Abs()), size, false, page);
        q == p && Abs() == if p == 0 || !live then g else HeapModel.Free(g, ptr).0
      ensures AllocOk(old(Abs()), size, false, page) ==>
                && Valid() && PayloadKept(old(ram.bytes), ram.bytes, old(Abs()))
                && Carried(old(ram.bytes), ram.bytes, old(Abs()), ptr, size, q)
    {
      ghost var h, m0 := Abs(), ram.bytes;
      q := Alloc(size, false, page);
      if q != 0 && live {
        MoveOver(h, m0, ptr, q, oldSize, size);
      }
    }
  }

  /** The move into the new block q leaves the payload of the blocks before it alone. */
  lemma MovedKept(m0: seq<Byte>, m1: seq<Byte>, m2: seq<Byte>, h: HeapModel.Heap, g: HeapModel.Heap,
                  ptr: nat, q: nat, n: nat, size: nat)
    requires Inv(g) && q != 0 && Target(h, g, q, size) && PayloadKept(m0, m1, h) && n <= size
    requires q + n <= |m1| && ptr + n <= |m1| && m2 == Moved(m1, q, ptr, n)
    ensures PayloadKept(m0, m2, h)
  {
    WriteHanded(m0, m1, m2, h, g, q, size);
  }

  /** From the old block in m0, unchanged in m1, moved to the new block in m2, unchanged in m3. */
  lemma CarriedOver(m0: seq<Byte>, m1: seq<Byte>, m2: seq<Byte>, m3: seq<Byte>, h: HeapModel.Heap, g: HeapModel.Heap,
                    ptr: nat, q: nat, n: nat, oldSize: nat, size: nat)
    requires Inv(g) && q != 0 && Target(h, g, q, size) && g.blocks[q - HDR] == Block(size, true)
    requires ptr != 0 && Known(h, ptr) && h.blocks[ptr - HDR] == Block(oldSize, true) && n == Min(oldSize, size)
    requires PayloadKept(m0, m1, h) && PayloadKept(m0, m2, h) && PayloadKept(m2, m3, g)
    requires q + n <= |m1| && ptr + n <= |m1| && m2 == Moved(m1, q, ptr, n)
    ensures PayloadKept(m0, m3, h) && Carried(m0, m3, h, ptr, size, q)
  {
    PayloadSlice(m0, m1, h, ptr, n);
    StillKept(m0, m2, m3, h, g);
    PayloadSlice(m2, m3, g, q, n);
  }

  /** A move into the payload of a block leaves every header as it is. */
  lemma MovedInto(m: seq<Byte>, w: seq<Byte>, root: nat, h: HeapModel.Heap, dest: nat, src: nat, n: nat)
    requires Inv(h) && Shape(m, root, h.blocks, h.tree) && HeadersMatch(m, h.blocks)
    requires dest != 0 && Known(h, dest) && n <= h.blocks[dest - HDR].size
    requires dest + n <= |m| && src + n <= |m| && w == Moved(m, dest, src, n)
    ensures Shape(w, root, h.blocks, h.tree) && HeadersMatch(w, h.blocks)
  {
    MovedOutside(m, w, dest, src, n);
    PayloadWrite(m, w, root, h, dest - HDR);
  }
}
