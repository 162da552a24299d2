/** The heap allocator (src/mm.cpp) as a state machine on values: what every call does to the
    set of blocks, the free tree and the bump region, and what holds on every run. */
module HeapModel {
  import opened Basics
  import opened FreeTree

  const MAXREQ := TWO32 - 1 - HDR  // alloc refuses larger requests (src/mm.cpp:460)

  /** A block that was carved once: its payload size, and whether it is handed out now. */
  datatype Block = Block(size: nat, live: bool)

  /** blocks maps header addresses to blocks; pages are the page ranges obtained so far. */
  datatype Heap = Heap(blocks: map<nat, Block>, tree: Tree, lastPage: nat, top: nat, max: nat,
                       pages: set<(nat, nat)>)

  const EMPTY := Heap(map[], Leaf, 0, 0, 0, {})

  function PageCount(bytes: nat): (r: nat)
    ensures (r - 1) * PAGE < bytes <= r * PAGE
  {
    if bytes % PAGE != 0 then bytes / PAGE + 1 else bytes / PAGE
  }

  // ------------------------------------------------------------------ invariant

  predicate Apart(a: nat, b: nat, c: nat, d: nat) {
    b <= c || d <= a
  }

  function End(h: Heap, a: nat): (r: nat)
    requires a in h.blocks
  {
    a + HDR + h.blocks[a].size
  }

  ghost predicate InPage(h: Heap, a: nat, b: nat) {
    exists p :: p in h.pages && p.0 <= a && b <= p.1
  }

  predicate BlockApart(h: Heap, a: nat, b: nat)
    requires a in h.blocks && b in h.blocks
  {
    Apart(a, End(h, a), b, End(h, b))
  }

  /** Extents, header included, lie in obtained pages and are pairwise disjoint. */
  ghost predicate BlocksApart(h: Heap) {
    && (forall p | p in h.pages :: 0 < p.0 && p.1 < TWO32)
    && (forall a {:trigger InPage(h, a, End(h, a))} | a in h.blocks :: InPage(h, a, End(h, a)))
    && (forall a, b {:trigger BlockApart(h, a, b)} | a in h.blocks && b in h.blocks && a != b :: BlockApart(h, a, b))
  }

  /** The tree holds freed blocks only, each under its size. */
  ghost predicate TreeMatches(h: Heap) {
    && NoDup(h.tree) && Ordered(h.tree)
    && (forall x | x in Nodes(h.tree) :: x in h.blocks && !h.blocks[x].live)
    && (forall x, s | Holds(h.tree, x, s) :: x in h.blocks && h.blocks[x].size == s)
  }

  ghost predicate BumpApart(h: Heap) {
    if h.lastPage == 0 then h.top == 0 && h.max == 0
    else
      && 0 < h.top <= h.max <= TWO32 - PAGE
      && InPage(h, h.top, h.max)
      && forall a | a in h.blocks :: Apart(a, End(h, a), h.top, h.max)
  }

  ghost predicate Inv(h: Heap) {
    BlocksApart(h) && TreeMatches(h) && BumpApart(h)
  }

  // ------------------------------------------------------------------ operations

  /** freeNoLock on a live block (src/mm.cpp:494-530). */
  function FreeBlock(h: Heap, a: nat): (r: Heap)
    requires a in h.blocks
  {
    h.(blocks := h.blocks[a := Block(h.blocks[a].size, false)], tree := Insert(h.tree, a, h.blocks[a].size))
  }

  /** Rejected unless the pointer is to a block in use: null, double free. */
  function Free(h: Heap, ptr: nat): (r: (Heap, bool))
    requires ptr == 0 || (ptr >= HDR && ptr - HDR in h.blocks)
  {
    if ptr == 0 || !h.blocks[ptr - HDR].live then (h, false) else (FreeBlock(h, ptr - HDR), true)
  }

  predicate TailUsable(h: Heap) {
    h.lastPage != 0 && h.top != 0 && h.max != 0 && Wrap(h.top + HDR + 4) < h.max
  }

  function TailSize(top: nat, max: nat): (r: nat)
    ensures 0 <= max - top - HDR < TWO32 ==> r == max - top - HDR
  {
    var diff := max - top - HDR;
    if 0 <= diff < TWO32 then diff else diff % TWO32
  }

  /** The leftover of the bump region turned into a freed block (src/mm.cpp:384-405). */
  function FreeTail(h: Heap): (r: Heap) {
    if TailUsable(h) then
      var size := TailSize(h.top, h.max);
      h.(blocks := h.blocks[h.top := Block(size, false)], tree := Insert(h.tree, h.top, size))
    else h
  }

  /** The tail is first a block in use, then freed like any other. */
  lemma FreeTailIsFree(h: Heap, g: Heap)
    requires TailUsable(h) && g == h.(blocks := h.blocks[h.top := Block(TailSize(h.top, h.max), true)])
    ensures FreeBlock(g, h.top) == FreeTail(h)
  {
    assert FreeBlock(g, h.top).blocks == FreeTail(h).blocks;
  }

  predicate Fits(h: Heap, size: nat) {
    h.lastPage != 0 && h.top != 0 && h.max != 0 && Wrap(h.top + size + HDR) < h.max
  }

  function Lookup(h: Heap, size: nat, fast: bool): (r: Option<Hit>)
    ensures r.Some? ==> r.value.addr in Nodes(h.tree)
  {
    if fast then None else Search(h.tree, None, size)
  }

  /** allocMem (src/mm.cpp:340-438). page is what allocPage returns if it is asked; 0 is
      failure. The result pairs the new state with the payload pointer, 0 on failure. */
  function Alloc(h: Heap, size: nat, fast: bool, page: nat): (r: (Heap, nat))
    ensures h.blocks.Keys <= r.0.blocks.Keys
  {
    var hit := Lookup(h, size, fast);
    if hit.Some? then
      var a := hit.value.addr;
      (h.(blocks := h.blocks[a := Block(size, true)], tree := Release(h.tree, a)), a + HDR)
    else if Fits(h, size) then
      (h.(blocks := h.blocks[h.top := Block(size, true)], top := Wrap(h.top + size + HDR)), h.top + HDR)
    else
      var g := FreeTail(h);
      if page == 0 then (g, 0)
      else
        var bytes := PageCount(size + HDR) * PAGE;
        (Heap(g.blocks[page := Block(size, true)], g.tree, page, Wrap(page + size + HDR), Wrap(page + bytes),
              g.pages + {(page, page + bytes)}), page + HDR)
  }

  /** What allocPage promises when it succeeds: an aligned range no earlier page overlaps. */
  ghost predicate FreshPage(h: Heap, page: nat, cnt: nat) {
    && page % PAGE == 0 && 0 < page && page + cnt * PAGE < TWO32
    && forall p | p in h.pages :: Apart(p.0, p.1, page, page + cnt * PAGE)
  }

  ghost predicate PageOk(h: Heap, size: nat, page: nat) {
    page != 0 ==> FreshPage(h, page, PageCount(size + HDR))
  }

  /** The two ways a call can go wrong: the bump test passes only because the 32-bit sum
      wrapped, or no page came after the tail had been given away. */
  predicate AllocSafe(h: Heap, size: nat, fast: bool, page: nat) {
    || Lookup(h, size, fast).Some?
    || (if Fits(h, size) then h.top + size + HDR < TWO32 else page != 0 || !TailUsable(h))
  }

  /** The first of them. */
  predicate Wraps(h: Heap, size: nat, fast: bool) {
    Lookup(h, size, fast).None? && Fits(h, size) && h.top + size + HDR >= TWO32
  }

  // ------------------------------------------------------------------ every call

  lemma LookupHit(h: Heap, size: nat, fast: bool)
    requires Inv(h)
    ensures var hit := Lookup(h, size, fast);
      && (!fast ==> (hit.Some? <==> HasSize(h.tree, size)))
      && (hit.Some? ==>
            var a := hit.value.addr;
            a in Nodes(h.tree) && a in h.blocks && h.blocks[a] == Block(size, false))
  {
    if !fast {
      SearchExact(h.tree, None, size);
      if Search(h.tree, None, size).Some? {
        HoldsNode(h.tree, Search(h.tree, None, size).value.addr, size);
      }
    }
  }

  lemma FreeBlockInv(h: Heap, a: nat)
    requires Inv(h) && a in h.blocks && h.blocks[a].live
    ensures Inv(FreeBlock(h, a))
  {
    var g := FreeBlock(h, a);
    InsertKeeps(h.tree, a, h.blocks[a].size);
    InsertHolds(h.tree, a, h.blocks[a].size);
    SameExtents(h, g);
  }

  /** States with the same extents and pages have their blocks apart alike. */
  lemma SameExtents(h: Heap, g: Heap)
    requires BlocksApart(h) && h.pages == g.pages && h.blocks.Keys == g.blocks.Keys
    requires forall a | a in h.blocks :: h.blocks[a].size == g.blocks[a].size
    ensures BlocksApart(g)
    ensures BumpApart(h) && h.lastPage == g.lastPage && h.top == g.top && h.max == g.max ==> BumpApart(g)
  {
    forall a | a in g.blocks ensures InPage(g, a, End(g, a)) && End(g, a) == End(h, a) {
      assert InPage(h, a, End(h, a));
    }
    forall a, b | a in g.blocks && b in g.blocks && a != b ensures BlockApart(g, a, b) {
      assert BlockApart(h, a, b);
    }
    if BumpApart(h) && h.lastPage != 0 { assert InPage(h, h.top, h.max); }
  }

  /** Carving a new block out of space no block touches. */
  lemma CarveInv(h: Heap, g: Heap, a: nat, size: nat, live: bool)
    requires BlocksApart(h) && h.pages <= g.pages && a !in h.blocks
    requires forall p | p in g.pages :: 0 < p.0 && p.1 < TWO32
    requires g.blocks == h.blocks[a := Block(size, live)]
    requires forall b | b in h.blocks :: Apart(b, End(h, b), a, a + HDR + size)
    requires InPage(g, a, a + HDR + size)
    ensures BlocksApart(g)
  {
    forall b | b in g.blocks ensures InPage(g, b, End(g, b)) {
      if b != a { assert InPage(h, b, End(h, b)); }
    }
    forall b, c | b in g.blocks && c in g.blocks && b != c ensures BlockApart(g, b, c) {
      if b != a && c != a { assert BlockApart(h, b, c); }
    }
  }

  lemma NotABlock(h: Heap)
    requires Inv(h) && h.lastPage != 0 && h.top < h.max
    ensures h.top !in h.blocks
  {
  }

  lemma TailFacts(h: Heap)
    requires Inv(h) && TailUsable(h)
    ensures h.top + HDR + 4 < h.max < TWO32
  {
  }

  /** Giving the tail away keeps blocks and tree in order; only the bump region is stale. */
  lemma FreeTailInv(h: Heap)
    requires Inv(h)
    ensures var g := FreeTail(h);
      && BlocksApart(g) && TreeMatches(g) && g.pages == h.pages
      && (TailUsable(h) ==> h.top in g.blocks && End(g, h.top) == h.max && h.top < h.max)
      && (!TailUsable(h) ==> g == h)
  {
    if TailUsable(h) {
      TailFacts(h);
      NotABlock(h);
      var g, size := FreeTail(h), h.max - h.top - HDR;
      InsertKeeps(h.tree, h.top, size);
      InsertHolds(h.tree, h.top, size);
      assert InPage(h, h.top, h.max);
      CarveInv(h, g, h.top, size, false);
    }
  }

  lemma AllocHitInv(h: Heap, size: nat, fast: bool, page: nat)
    requires Inv(h) && Lookup(h, size, fast).Some?
    ensures Inv(Alloc(h, size, fast, page).0)
  {
    LookupHit(h, size, fast);
    var a := Lookup(h, size, fast).value.addr;
    ReleaseExact(h.tree, a);
    var g := Alloc(h, size, fast, page).0;
    SameExtents(h, g);
    forall x, s | Holds(g.tree, x, s) ensures x in g.blocks && g.blocks[x].size == s {
      assert Holds(h.tree, x, s);
    }
  }

  lemma AllocBumpInv(h: Heap, size: nat, fast: bool, page: nat)
    requires Inv(h) && Lookup(h, size, fast).None? && Fits(h, size) && h.top + size + HDR < TWO32
    ensures Inv(Alloc(h, size, fast, page).0)
  {
    NotABlock(h);
    var g := Alloc(h, size, fast, page).0;
    assert InPage(h, h.top, h.max);
    assert InPage(g, h.top, h.top + HDR + size);
    CarveInv(h, g, h.top, size, true);
    assert InPage(g, g.top, g.max);
    forall b | b in g.blocks ensures Apart(b, End(g, b), g.top, g.max) {
      if b != h.top { assert End(g, b) == End(h, b); }
    }
  }

  /** A fresh page is apart from every block there is. */
  lemma FreshApart(h: Heap, page: nat, cnt: nat, b: nat)
    requires BlocksApart(h) && FreshPage(h, page, cnt) && b in h.blocks
    ensures Apart(b, End(h, b), page, page + cnt * PAGE)
    ensures cnt > 0 ==> b != page
  {
    assert InPage(h, b, End(h, b));
  }

  lemma AllocPageInv(h: Heap, size: nat, fast: bool, page: nat)
    requires Inv(h) && Lookup(h, size, fast).None? && !Fits(h, size)
    requires page != 0 && PageOk(h, size, page)
    ensures Inv(Alloc(h, size, fast, page).0)
  {
    FreeTailInv(h);
    var g, r, cnt := FreeTail(h), Alloc(h, size, fast, page).0, PageCount(size + HDR);
    forall b | b in g.blocks ensures Apart(b, End(g, b), page, page + cnt * PAGE) && b != page {
      FreshApart(g, page, cnt, b);
    }
    assert page + cnt * PAGE <= TWO32 - PAGE;
    NewPageInv(g, r, page, size, cnt * PAGE);
  }

  lemma NewPageInv(g: Heap, r: Heap, page: nat, size: nat, bytes: nat)
    requires BlocksApart(g) && TreeMatches(g)
    requires forall b | b in g.blocks :: Apart(b, End(g, b), page, page + bytes) && b != page
    requires 0 < page && page + bytes <= TWO32 - PAGE && size + HDR <= bytes
    requires r == Heap(g.blocks[page := Block(size, true)], g.tree, page, page + size + HDR, page + bytes,
                       g.pages + {(page, page + bytes)})
    ensures Inv(r)
  {
    assert (page, page + bytes) in r.pages;
    assert InPage(r, page, page + HDR + size);
    CarveInv(g, r, page, size, true);
    assert InPage(r, r.top, r.max);
    forall b | b in r.blocks ensures Apart(b, End(r, b), r.top, r.max) {
      if b != page { assert End(r, b) == End(g, b); }
    }
  }

  /** A call keeps the invariant exactly when neither hazard applies. */
  lemma AllocInvIff(h: Heap, size: nat, fast: bool, page: nat)
    requires Inv(h) && size <= MAXREQ && PageOk(h, size, page)
    ensures Inv(Alloc(h, size, fast, page).0) <==> AllocSafe(h, size, fast, page)
  {
    LookupHit(h, size, fast);
    var g := Alloc(h, size, fast, page).0;
    if Lookup(h, size, fast).Some? {
      AllocHitInv(h, size, fast, page);
    } else if Fits(h, size) {
      if h.top + size + HDR < TWO32 {
        AllocBumpInv(h, size, fast, page);
      } else {
        assert End(g, h.top) >= TWO32;
        assert !InPage(g, h.top, End(g, h.top));
      }
    } else if page != 0 {
      AllocPageInv(h, size, fast, page);
    } else {
      FreeTailInv(h);
      if TailUsable(h) {
        assert !Apart(h.top, End(g, h.top), g.top, g.max);
      }
    }
  }

  /** g is h with the block behind ptr handed out: the block came from the tree or is new, and
      every other block of h is as it was. */
  ghost predicate Target(h: Heap, g: Heap, ptr: nat, size: nat) {
    && h.pages <= g.pages && h.blocks.Keys <= g.blocks.Keys
    && (ptr != 0 ==>
          && ptr >= HDR && ptr - HDR in g.blocks && g.blocks[ptr - HDR] == Block(size, true)
          && (ptr - HDR in h.blocks ==> h.blocks[ptr - HDR] == Block(size, false) && ptr - HDR in Nodes(h.tree))
          && ptr - HDR !in Nodes(g.tree))
    && (forall b | b in h.blocks && (ptr == 0 || b != ptr - HDR) :: g.blocks[b] == h.blocks[b])
    && (forall b | b in h.blocks && b !in Nodes(h.tree) :: b !in Nodes(g.tree))
  }

  lemma TargetHit(h: Heap, size: nat, fast: bool, page: nat)
    requires Inv(h) && Lookup(h, size, fast).Some?
    ensures Target(h, Alloc(h, size, fast, page).0, Alloc(h, size, fast, page).1, size)
  {
    LookupHit(h, size, fast);
    ReleaseExact(h.tree, Lookup(h, size, fast).value.addr);
  }

  lemma TargetPage(h: Heap, size: nat, fast: bool, page: nat)
    requires Inv(h) && Lookup(h, size, fast).None? && !Fits(h, size)
    requires page != 0 && PageOk(h, size, page)
    ensures Target(h, Alloc(h, size, fast, page).0, Alloc(h, size, fast, page).1, size)
  {
    if TailUsable(h) {
      TailFacts(h);
      NotABlock(h);
      assert InPage(h, h.top, h.max);
    }
    assert page !in h.blocks by {
      if page in h.blocks { FreshApart(h, page, PageCount(size + HDR), page); }
    }
  }

  lemma AllocTarget(h: Heap, size: nat, fast: bool, page: nat)
    requires Inv(h) && PageOk(h, size, page) && AllocSafe(h, size, fast, page)
    ensures Target(h, Alloc(h, size, fast, page).0, Alloc(h, size, fast, page).1, size)
  {
    if Lookup(h, size, fast).Some? {
      TargetHit(h, size, fast, page);
    } else if Fits(h, size) {
      NotABlock(h);
    } else if page != 0 {
      TargetPage(h, size, fast, page);
    }
  }

  /** What a successful allocation hands out: a block of exactly the size asked for, that was
      not in use, inside obtained pages and apart from every block in use. */
  lemma HandedOut(h: Heap, g: Heap, ptr: nat, size: nat)
    requires Inv(g) && Target(h, g, ptr, size) && ptr != 0
    ensures ptr - HDR in h.blocks ==> !h.blocks[ptr - HDR].live
    ensures g.blocks[ptr - HDR] == Block(size, true) && InPage(g, ptr - HDR, ptr + size)
    ensures forall b | b in h.blocks && h.blocks[b].live ::
              b in g.blocks && g.blocks[b] == h.blocks[b] && Apart(b, End(h, b), ptr - HDR, ptr + size)
  {
    assert InPage(g, ptr - HDR, End(g, ptr - HDR));
    forall b | b in h.blocks && h.blocks[b].live
      ensures b in g.blocks && g.blocks[b] == h.blocks[b] && Apart(b, End(h, b), ptr - HDR, ptr + size)
    {
      assert BlockApart(g, b, ptr - HDR);
    }
  }

  // ------------------------------------------------------------------ runs

  datatype Op =
    | AllocOp(size: nat, fast: bool, page: nat)
    | FreeOp(ptr: nat)
    | ReallocOp(ptr: nat, size: nat, page: nat)

  predicate Known(h: Heap, ptr: nat) {
    ptr == 0 || (ptr >= HDR && ptr - HDR in h.blocks)
  }

  /** MM::alloc refuses requests whose size with the header exceeds 32 bits. */
  function AllocCall(h: Heap, size: nat, fast: bool, page: nat): (r: (Heap, nat))
    ensures h.blocks.Keys <= r.0.blocks.Keys
  {
    if size > MAXREQ then (h, 0) else Alloc(h, size, fast, page)
  }

  /** MM::realloc (src/mm.cpp:544-581). */
  function Realloc(h: Heap, ptr: nat, size: nat, page: nat): (r: (Heap, nat))
    requires Known(h, ptr)
  {
    if size == 0 && ptr != 0 then (Free(h, ptr).0, 0)
    else if ptr != 0 && h.blocks[ptr - HDR].size == size then (h, ptr)
    else
      var (g, q) := AllocCall(h, size, false, page);
      if q == 0 || ptr == 0 || !h.blocks[ptr - HDR].live then (g, q)
      else (Free(g, ptr).0, q)
  }

  /** Whether realloc asks for a new block. */
  predicate Allocates(h: Heap, ptr: nat, size: nat)
    requires Known(h, ptr)
  {
    ptr == 0 || (size != 0 && h.blocks[ptr - HDR].size != size)
  }

  function Step(h: Heap, op: Op): (r: Heap)
    requires op.AllocOp? || Known(h, op.ptr)
  {
    match op
    case AllocOp(size, fast, page) => AllocCall(h, size, fast, page).0
    case FreeOp(ptr) => Free(h, ptr).0
    case ReallocOp(ptr, size, page) => Realloc(h, ptr, size, page).0
  }

  ghost predicate AllocOk(h: Heap, size: nat, fast: bool, page: nat) {
    size <= MAXREQ ==> PageOk(h, size, page) && AllocSafe(h, size, fast, page)
  }

  /** The request is too large or can be answered: pages are fresh, and the bump test does not wrap. */
  ghost predicate Answerable(h: Heap, size: nat, fast: bool, page: nat) {
    size <= MAXREQ ==> PageOk(h, size, page) && !Wraps(h, size, fast)
  }

  ghost predicate OpOk(h: Heap, op: Op) {
    match op
    case AllocOp(size, fast, page) => AllocOk(h, size, fast, page)
    case FreeOp(ptr) => Known(h, ptr)
    case ReallocOp(ptr, size, page) => Known(h, ptr) && (Allocates(h, ptr, size) ==> AllocOk(h, size, false, page))
  }

  ghost predicate RunOk(h: Heap, ops: seq<Op>)
    decreases |ops|
  {
    ops == [] || (OpOk(h, ops[0]) && RunOk(Step(h, ops[0]), ops[1..]))
  }

  ghost function Run(h: Heap, ops: seq<Op>): (r: Heap)
    requires RunOk(h, ops)
    decreases |ops|
  {
    if ops == [] then h else Run(Step(h, ops[0]), ops[1..])
  }

  /** No block is ever split, merged, moved or forgotten, and a freed block outside the tree
      is never used again. */
  ghost predicate Grows(h: Heap, g: Heap) {
    && (forall a | a in h.blocks :: a in g.blocks && g.blocks[a].size == h.blocks[a].size)
    && (forall a | a in h.blocks && !h.blocks[a].live && a !in Nodes(h.tree) ::
          !g.blocks[a].live && a !in Nodes(g.tree))
    && h.pages <= g.pages
  }

  lemma TargetGrows(h: Heap, g: Heap, ptr: nat, size: nat)
    requires Target(h, g, ptr, size)
    ensures Grows(h, g)
  {
  }

  lemma AllocGrows(h: Heap, size: nat, fast: bool, page: nat)
    requires Inv(h) && AllocOk(h, size, fast, page)
    ensures var r := AllocCall(h, size, fast, page);
      Inv(r.0) && Grows(h, r.0) && Target(h, r.0, r.1, size)
  {
    if size <= MAXREQ {
      AllocInvIff(h, size, fast, page);
      AllocTarget(h, size, fast, page);
      TargetGrows(h, Alloc(h, size, fast, page).0, Alloc(h, size, fast, page).1, size);
    }
  }

  lemma CallTarget(h: Heap, size: nat, fast: bool, page: nat)
    requires Inv(h) && AllocOk(h, size, fast, page)
    ensures Target(h, AllocCall(h, size, fast, page).0, AllocCall(h, size, fast, page).1, size)
  {
    AllocGrows(h, size, fast, page);
  }

  lemma FreeGrows(h: Heap, ptr: nat)
    requires Inv(h) && Known(h, ptr)
    ensures Inv(Free(h, ptr).0) && Grows(h, Free(h, ptr).0)
  {
    if ptr != 0 && h.blocks[ptr - HDR].live {
      FreeBlockInv(h, ptr - HDR);
    }
  }

  lemma GrowsTrans(h: Heap, g: Heap, f: Heap)
    requires Grows(h, g) && Grows(g, f)
    ensures Grows(h, f)
  {
  }

  lemma StepInv(h: Heap, op: Op)
    requires Inv(h) && OpOk(h, op)
    ensures Inv(Step(h, op)) && Grows(h, Step(h, op))
  {
    match op
    case AllocOp(size, fast, page) => AllocGrows(h, size, fast, page);
    case FreeOp(ptr) => FreeGrows(h, ptr);
    case ReallocOp(ptr, size, page) =>
      if size == 0 && ptr != 0 {
        FreeGrows(h, ptr);
      } else if ptr != 0 && h.blocks[ptr - HDR].size == size {
      } else {
        AllocGrows(h, size, false, page);
        var (g, q) := AllocCall(h, size, false, page);
        if q != 0 && ptr != 0 && h.blocks[ptr - HDR].live {
          FreeGrows(g, ptr);
          GrowsTrans(h, g, Free(g, ptr).0);
        }
      }
  }

  /** On every run of alloc, free and realloc, from any sound state. */
  lemma {:induction false} RunInv(h: Heap, ops: seq<Op>)
    requires Inv(h) && RunOk(h, ops)
    ensures Inv(Run(h, ops)) && Grows(h, Run(h, ops))
    decreases |ops|
  {
    if ops != [] {
      StepInv(h, ops[0]);
      RunInv(Step(h, ops[0]), ops[1..]);
      GrowsTrans(h, Step(h, ops[0]), Run(h, ops));
    }
  }

  /** The safety statement for runs from boot: live extents are pairwise disjoint, disjoint from
      every block in the free tree and from the bump region, and inside obtained pages. */
  lemma RunSafety(ops: seq<Op>)
    requires RunOk(EMPTY, ops)
    ensures var h := Run(EMPTY, ops);
      && (forall a, b | a in h.blocks && b in h.blocks && a != b && h.blocks[a].live ::
            Apart(a, End(h, a), b, End(h, b)))
      && (forall a | a in h.blocks && h.blocks[a].live ::
            a !in Nodes(h.tree) && Apart(a, End(h, a), h.top, h.max) && InPage(h, a, End(h, a)))
      && (forall x | x in Nodes(h.tree) :: x in h.blocks && Apart(x, End(h, x), h.top, h.max))
      && NoDup(h.tree) && Ordered(h.tree)
  {
    assert Inv(EMPTY);
    RunInv(EMPTY, ops);
    var h := Run(EMPTY, ops);
    forall a, b | a in h.blocks && b in h.blocks && a != b ensures Apart(a, End(h, a), b, End(h, b)) {
      assert BlockApart(h, a, b);
    }
  }

  // ------------------------------------------------------------------ where a block comes from

  /** No block of the tree will do: none has the size, or the tree is not asked. */
  ghost predicate NoFit(h: Heap, size: nat, fast: bool) {
    fast || !HasSize(h.tree, size)
  }

  /** The bump region is missing, or its room behind the header is too short, in 32-bit arithmetic. */
  predicate RegionShort(h: Heap, size: nat) {
    h.lastPage == 0 || h.top == 0 || h.max == 0 || Wrap(h.top + HDR + size) >= h.max
  }

  /** With a freed block of exactly this size the answer is one of them, and nothing else is touched
      but the tree, as releasing that block leaves it. */
  lemma FromTree(h: Heap, size: nat, page: nat)
    requires Inv(h) && HasSize(h.tree, size)
    ensures var (g, q) := Alloc(h, size, false, page);
      && q >= HDR && q - HDR in Nodes(h.tree) && h.blocks[q - HDR] == Block(size, false)
      && g == h.(blocks := h.blocks[q - HDR := Block(size, true)], tree := g.tree)
      && Nodes(g.tree) == Nodes(h.tree) - {q - HDR} - Dropped(h.tree, q - HDR)
  {
    LookupHit(h, size, false);
    ReleaseExact(h.tree, Search(h.tree, None, size).value.addr);
  }

  /** Without one, a region with room serves the request, whatever page would come. */
  lemma FromRegion(h: Heap, size: nat, fast: bool, page: nat)
    requires Inv(h) && NoFit(h, size, fast) && h.lastPage != 0 && h.top != 0 && h.top + HDR + size < h.max
    ensures Alloc(h, size, fast, page) ==
      (h.(blocks := h.blocks[h.top := Block(size, true)], top := h.top + HDR + size), h.top + HDR)
  {
    LookupHit(h, size, fast);
    assert InPage(h, h.top, h.max);
  }

  /** Pages are asked for exactly when no block of the tree will do and the region is short; as many
      as hold the block with its header. */
  lemma PagesIff(h: Heap, size: nat, fast: bool, page: nat)
    requires Inv(h) && size <= MAXREQ && page != 0 && PageOk(h, size, page)
    ensures var (g, q) := Alloc(h, size, fast, page);
      var cnt := PageCount(size + HDR);
      && (g.pages != h.pages <==> NoFit(h, size, fast) && RegionShort(h, size))
      && (g.pages != h.pages ==>
            && q == page + HDR && g.pages == h.pages + {(page, page + cnt * PAGE)}
            && g.lastPage == page && g.top == page + HDR + size && g.max == page + cnt * PAGE)
  {
    LookupHit(h, size, fast);
    assert (page, page + PageCount(size + HDR) * PAGE) !in h.pages;
  }

  /** Before pages are asked for, a leftover of the region of more than four bytes becomes a freed block
      up to the end of the region; a smaller one is lost. Without a page the answer is null. */
  lemma TailReleased(h: Heap, size: nat, fast: bool, page: nat)
    requires Inv(h) && NoFit(h, size, fast) && RegionShort(h, size)
    ensures var (g, q) := Alloc(h, size, fast, page);
      var left := h.lastPage != 0 && h.top != 0 && h.top + HDR + 4 < h.max;
      var blocks := if left then h.blocks[h.top := Block(h.max - h.top - HDR, false)] else h.blocks;
      && g.blocks == (if page == 0 then blocks else blocks[page := Block(size, true)])
      && (page == 0 ==> q == 0 && g.pages == h.pages && g.top == h.top && g.max == h.max)
      && (left ==> forall x, z :: Holds(g.tree, x, z) <==>
                     Holds(h.tree, x, z) || (x == h.top && z == h.max - h.top - HDR))
      && (!left ==> g.tree == h.tree)
  {
    LookupHit(h, size, fast);
    assert h.top != 0 && h.lastPage != 0 ==> InPage(h, h.top, h.max);
    InsertHolds(h.tree, h.top, TailSize(h.top, h.max));
  }

  /** free of a block in use: it is in the tree under its size from then on, and nothing else changes. */
  lemma FreeExact(h: Heap, ptr: nat)
    requires Inv(h) && Known(h, ptr) && ptr != 0 && h.blocks[ptr - HDR].live
    ensures var (g, ok) := Free(h, ptr);
      var size := h.blocks[ptr - HDR].size;
      && ok && g == h.(blocks := h.blocks[ptr - HDR := Block(size, false)], tree := g.tree)
      && forall x, z :: Holds(g.tree, x, z) <==> Holds(h.tree, x, z) || (x == ptr - HDR && z == size)
  {
    InsertHolds(h.tree, ptr - HDR, h.blocks[ptr - HDR].size);
  }

  /** After a free the next allocation of that size is served from the tree. */
  lemma FreedIsReused(h: Heap, ptr: nat, page: nat)
    requires Inv(h) && Known(h, ptr) && ptr != 0 && h.blocks[ptr - HDR].live
    ensures var g, size := Free(h, ptr).0, h.blocks[ptr - HDR].size;
      var (f, q) := Alloc(g, size, false, page);
      && q >= HDR && q - HDR in h.blocks && f.pages == h.pages && f.top == h.top && f.max == h.max
  {
    var g, size := Free(h, ptr).0, h.blocks[ptr - HDR].size;
    FreeBlockInv(h, ptr - HDR);
    FreeExact(h, ptr);
    HoldsSize(g.tree, ptr - HDR, size);
    FromTree(g, size, page);
  }

  lemma {:induction false} HoldsSize(t: Tree, x: nat, s: nat)
    requires Holds(t, x, s)
    ensures HasSize(t, s)
  {
    if t.Node? {
      if Holds(t.left, x, s) { HoldsSize(t.left, x, s); }
      if Holds(t.right, x, s) { HoldsSize(t.right, x, s); }
    }
  }

  // ------------------------------------------------------------------ freed pointers

  /** The pointer a call returns; 0 for free. */
  function Answer(h: Heap, op: Op): (q: nat)
    requires op.AllocOp? || Known(h, op.ptr)
  {
    match op
    case AllocOp(size, fast, page) => AllocCall(h, size, fast, page).1
    case FreeOp(_) => 0
    case ReallocOp(ptr, size, page) => Realloc(h, ptr, size, page).1
  }

  /** A block comes into use only by being the answer of a call. */
  lemma OnlyAnswered(h: Heap, op: Op, a: nat)
    requires Inv(h) && OpOk(h, op) && a in h.blocks && !h.blocks[a].live && Answer(h, op) != a + HDR
    ensures a in Step(h, op).blocks && !Step(h, op).blocks[a].live
  {
    match op
    case AllocOp(size, fast, page) =>
      var g, q := CallAnswer(h, size, fast, page);
      TargetOnly(h, g, q, size, a);
    case FreeOp(ptr) =>
    case ReallocOp(ptr, size, page) =>
      if Allocates(h, ptr, size) {
        var g, q := CallAnswer(h, size, false, page);
        TargetOnly(h, g, q, size, a);
        ReallocParts(h, ptr, size, page, g, q);
      }
  }

  /** An allocation by name: the state and the pointer. */
  lemma CallAnswer(h: Heap, size: nat, fast: bool, page: nat) returns (g: Heap, q: nat)
    requires Inv(h) && AllocOk(h, size, fast, page)
    ensures (g, q) == AllocCall(h, size, fast, page) && Target(h, g, q, size)
  {
    AllocGrows(h, size, fast, page);
    g, q := AllocCall(h, size, fast, page).0, AllocCall(h, size, fast, page).1;
  }

  lemma TargetOnly(h: Heap, g: Heap, q: nat, size: nat, a: nat)
    requires Target(h, g, q, size) && a in h.blocks && !h.blocks[a].live && q != a + HDR
    ensures a in g.blocks && !g.blocks[a].live
  {
  }

  /** realloc as the allocation it makes, with the old block freed if it was in use. */
  lemma ReallocParts(h: Heap, ptr: nat, size: nat, page: nat, g: Heap, q: nat)
    requires Known(h, ptr) && Allocates(h, ptr, size) && (g, q) == AllocCall(h, size, false, page)
    ensures Realloc(h, ptr, size, page).1 == q
    ensures Realloc(h, ptr, size, page).0 ==
      if q == 0 || ptr == 0 || !h.blocks[ptr - HDR].live then g else Free(g, ptr).0
  {
  }

  ghost predicate NeverAnswered(h: Heap, ops: seq<Op>, ptr: nat)
    requires RunOk(h, ops)
    decreases |ops|
  {
    ops == [] || (Answer(h, ops[0]) != ptr && NeverAnswered(Step(h, ops[0]), ops[1..], ptr))
  }

  /** A freed pointer is refused when it is freed again, after any run in which no call returned it. */
  lemma {:induction false} DoubleFree(h: Heap, ops: seq<Op>, ptr: nat)
    requires Inv(h) && Known(h, ptr) && ptr != 0 && !h.blocks[ptr - HDR].live
    requires RunOk(h, ops) && NeverAnswered(h, ops, ptr)
    ensures var g := Run(h, ops);
      Known(g, ptr) && Free(g, ptr) == (g, false)
    decreases |ops|
  {
    if ops != [] {
      var g := StillFreed(h, ops[0], ptr);
      DoubleFree(g, ops[1..], ptr);
    }
  }

  lemma StillFreed(h: Heap, op: Op, ptr: nat) returns (g: Heap)
    requires Inv(h) && OpOk(h, op) && Known(h, ptr) && ptr != 0 && !h.blocks[ptr - HDR].live && Answer(h, op) != ptr
    ensures g == Step(h, op) && Inv(g) && Known(g, ptr) && !g.blocks[ptr - HDR].live
  {
    StepInv(h, op);
    OnlyAnswered(h, op, ptr - HDR);
    g := Step(h, op);
  }

  /** What realloc returns: a block of the size asked for, in use except in one case. Given a freed block
      of that very size it returns the freed block, since it compares sizes before it looks at the state
      (src/mm.cpp:554-561). */
  lemma ReallocAnswer(h: Heap, ptr: nat, size: nat, page: nat)
    requires Inv(h) && OpOk(h, ReallocOp(ptr, size, page))
    ensures Returned(h, Realloc(h, ptr, size, page).0, ptr, size, Realloc(h, ptr, size, page).1)
  {
    if Allocates(h, ptr, size) {
      var g, q := CallAnswer(h, size, false, page);
      ReallocParts(h, ptr, size, page, g, q);
      if q != 0 { TargetReturned(h, g, ptr, size, q); }
    }
  }

  /** realloc in all its cases: to size 0 it is free, to the same size it changes nothing, and else it is
      an allocation after which, if it succeeded, the old block is freed; if it failed the old block
      stays as it is. Other blocks are never touched. */
  lemma ReallocExact(h: Heap, ptr: nat, size: nat, page: nat)
    requires Inv(h) && OpOk(h, ReallocOp(ptr, size, page))
    ensures var (g, q) := Realloc(h, ptr, size, page);
      var (f, p) := AllocCall(h, size, false, page);
      && (size == 0 && ptr != 0 ==> q == 0 && g == Free(h, ptr).0 && !g.blocks[ptr - HDR].live)
      && (size != 0 && ptr != 0 && h.blocks[ptr - HDR].size == size ==> q == ptr && g == h)
      && (Allocates(h, ptr, size) ==>
            && q == p
            && (ptr != 0 ==> g.blocks[ptr - HDR] ==
                             if q == 0 then h.blocks[ptr - HDR] else if q == ptr then Block(size, true)
                             else Block(h.blocks[ptr - HDR].size, false))
            && (forall b | b in f.blocks && (ptr == 0 || b != ptr - HDR) ::
                  b in g.blocks && g.blocks[b] == f.blocks[b]))
  {
    if Allocates(h, ptr, size) {
      var f, p := CallAnswer(h, size, false, page);
      ReallocParts(h, ptr, size, page, f, p);
    }
  }

  ghost predicate Returned(h: Heap, g: Heap, ptr: nat, size: nat, q: nat)
    requires Known(h, ptr)
  {
    q != 0 ==>
      && Known(g, q) && g.blocks[q - HDR].size == size
      && (g.blocks[q - HDR].live <==> !(ptr != 0 && h.blocks[ptr - HDR] == Block(size, false)))
  }

  lemma TargetReturned(h: Heap, g: Heap, ptr: nat, size: nat, q: nat)
    requires Known(h, ptr) && Target(h, g, q, size) && q != 0 && Allocates(h, ptr, size)
    ensures Returned(h, g, ptr, size, q)
    ensures ptr != 0 && h.blocks[ptr - HDR].live ==> Known(g, ptr) && Returned(h, Free(g, ptr).0, ptr, size, q)
  {
  }

  // ------------------------------------------------------------------ the two hazards, concretely

  /** A page holding one block of 4000 bytes, with 76 bytes left. */
  const ONE_PAGE := Heap(map[4096 := Block(4000, true)], Leaf, 4096, 8116, 8192, {(4096, 8192)})

  lemma OnePageInv()
    ensures Alloc(EMPTY, 4000, false, 4096) == (ONE_PAGE, 4116)
    ensures Inv(ONE_PAGE)
  {
    var r := Alloc(EMPTY, 4000, false, 4096).0;
    assert r.blocks == ONE_PAGE.blocks;
    assert r.pages == ONE_PAGE.pages;
    assert AllocSafe(EMPTY, 4000, false, 4096);
    AllocInvIff(EMPTY, 4000, false, 4096);
  }

  /** When no page comes, the tail is both a freed block and still the bump region. */
  lemma PageFailureHazard()
    ensures Inv(ONE_PAGE) && PageOk(ONE_PAGE, 100, 0)
    ensures var g := Alloc(ONE_PAGE, 100, false, 0).0;
      && !Inv(g)
      && 8116 in Nodes(g.tree) && g.top == 8116 && End(g, 8116) == g.max
  {
    OnePageInv();
    AllocInvIff(ONE_PAGE, 100, false, 0);
  }

  /** A request that wraps the 32-bit sum passes the bump test and reaches past all memory. */
  lemma WrapHazard()
    ensures Inv(ONE_PAGE) && TWO32 - 8116 - HDR <= MAXREQ
    ensures var (g, ptr) := Alloc(ONE_PAGE, TWO32 - 8116 - HDR, false, 0);
      ptr == 8116 + HDR && !Inv(g) && End(g, 8116) == TWO32 && g.top == 0
  {
    OnePageInv();
    AllocInvIff(ONE_PAGE, TWO32 - 8116 - HDR, false, 0);
  }

  /** The one block of ONE_PAGE, freed. */
  const FREED_PAGE := Heap(map[4096 := Block(4000, false)], Single(4096, 4000), 4096, 8116, 8192, {(4096, 8192)})

  /** A freed block is returned by realloc, and by the next alloc of its size as well; and once it is in
      use again, freeing the old pointer is accepted. */
  lemma FreedPointerReused()
    ensures Inv(ONE_PAGE) && Free(ONE_PAGE, 4116) == (FREED_PAGE, true) && Inv(FREED_PAGE)
    ensures Realloc(FREED_PAGE, 4116, 4000, 0) == (FREED_PAGE, 4116)
    ensures Alloc(FREED_PAGE, 4000, false, 0).1 == 4116
    ensures Free(Alloc(FREED_PAGE, 4000, false, 0).0, 4116).1
  {
    OnePageInv();
    FreeBlockInv(ONE_PAGE, 4096);
    assert FreeBlock(ONE_PAGE, 4096).blocks == FREED_PAGE.blocks;
  }
}
