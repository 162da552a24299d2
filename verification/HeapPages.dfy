/** The heap on top of paging: MM::allocPage is Paging::alloc, which is map (src/mm.cpp:96-115,
    src/paging.cpp:54-94). That pages come fresh, which the heap relies on, is here a theorem. */
module HeapPages {
  import opened Basics
  import H = HeapModel
  import F = FreeTree
  import B = Bits
  import P = PagingModel

  /** Every page of every range the heap obtained is mapped. */
  ghost predicate Backed(pages: set<(nat, nat)>, m: P.Mem)
    requires P.TablesOk(m)
  {
    forall p | p in pages :: RangeBacked(p, m)
  }

  ghost predicate RangeBacked(p: (nat, nat), m: P.Mem)
    requires P.TablesOk(m)
  {
    && p.0 % PAGE == 0 && p.1 % PAGE == 0 && p.0 < p.1
    && forall v: nat | p.0 <= v * PAGE < p.1 :: !P.IsAvail(P.Entry(m, v))
  }

  /** Without wrap-around the pages of a range are consecutive. */
  lemma {:induction false} NthPage(v: nat, k: nat)
    requires v + k < P.PAGES
    ensures P.Nth(v, k) == v + k
    decreases k
  {
    if k > 0 { NthPage(v + 1, k - 1); }
  }

  /** A page inside both of two aligned ranges that overlap. */
  lemma CommonPage(a: nat, b: nat, c: nat, d: nat) returns (v: nat)
    requires a % PAGE == 0 && c % PAGE == 0 && a < d && c < b && a < b && c < d
    ensures a <= v * PAGE < b && c <= v * PAGE < d
  {
    v := if a <= c then c / PAGE else a / PAGE;
  }

  /** A range that map returns is fresh for the heap, and is backed from then on like those before,
      unless it reaches the end of the address space. */
  lemma MappedIsFresh(h: H.Heap, m: P.Mem, cnt: nat)
    requires P.Ok(m) && B.SafeCount(m.bits.cnt) && m.heap < TWO32 && m.userHeap < TWO32
    requires Backed(h.pages, m) && cnt > 0 && P.Map(m, false, cnt).1
    requires 0 < P.Map(m, false, cnt).2 && P.Map(m, false, cnt).2 + cnt * PAGE < TWO32
    ensures var (r, _, at) := P.Map(m, false, cnt);
      && H.FreshPage(h, at, cnt)
      && P.Ok(r) && Backed(h.pages + {(at, at + cnt * PAGE)}, r)
  {
    P.MapFresh(m, false, cnt);
    var (r, ok, at) := P.Map(m, false, cnt);
    forall p | p in h.pages ensures H.Apart(p.0, p.1, at, at + cnt * PAGE) && RangeBacked(p, r) {
      EarlierRange(p, m, r, at, cnt);
    }
    forall v: nat | at <= v * PAGE < at + cnt * PAGE ensures !P.IsAvail(P.Entry(r, v)) {
      InRange(m, r, at, cnt, v);
    }
    assert RangeBacked((at, at + cnt * PAGE), r);
  }

  /** A backed range is apart from one mapped later, and stays backed. */
  lemma EarlierRange(p: (nat, nat), m: P.Mem, r: P.Mem, at: nat, cnt: nat)
    requires P.Formed(m) && P.Formed(r) && RangeBacked(p, m)
    requires at % PAGE == 0 && cnt > 0 && at + cnt * PAGE < TWO32
    requires P.MappedRange(m, r, at / PAGE, cnt) && P.FreshChanges(m, r)
    ensures H.Apart(p.0, p.1, at, at + cnt * PAGE) && RangeBacked(p, r)
  {
    if !H.Apart(p.0, p.1, at, at + cnt * PAGE) {
      var v := CommonPage(p.0, p.1, at, at + cnt * PAGE);
      InRange(m, r, at, cnt, v);
    }
    forall v: nat | p.0 <= v * PAGE < p.1 ensures !P.IsAvail(P.Entry(r, v)) {
      assert P.KeptOrMapped(m, r, v);
    }
  }

  lemma InRange(m: P.Mem, r: P.Mem, at: nat, cnt: nat, v: nat)
    requires P.Formed(m) && P.Formed(r) && at % PAGE == 0 && at + cnt * PAGE < TWO32
    requires P.MappedRange(m, r, at / PAGE, cnt) && at <= v * PAGE < at + cnt * PAGE
    ensures P.MappedPage(m, r, v)
  {
    var u := at / PAGE;
    assert at == u * PAGE;
    assert v < u + cnt;
    NthPage(u, v - u);
  }

  // ------------------------------------------------------------------ the two together

  /** The heap and the paging state it runs on. */
  datatype System = System(h: H.Heap, w: P.World)

  datatype Op =
    | AllocOp(size: nat, fast: bool)
    | FreeOp(ptr: nat)
    | ReallocOp(ptr: nat, size: nat)
    | PagingOp(op: P.Op)

  ghost predicate Inv(s: System) {
    H.Inv(s.h) && P.Sound(s.w) && Backed(s.h.pages, s.w.mem)
  }

  /** Whether an allocation asks for pages, and how many. */
  predicate Asks(h: H.Heap, size: nat, fast: bool) {
    size <= H.MAXREQ && H.Lookup(h, size, fast).None? && !H.Fits(h, size)
  }

  function Pages(size: nat): (cnt: nat)
    ensures cnt > 0
  {
    H.PageCount(size + F.HDR)
  }

  /** The paging state after an allocation, and the page it got; 0 when none was asked for or came. */
  ghost function Obtain(s: System, size: nat, fast: bool): (r: (P.World, nat))
    requires P.Sound(s.w)
  {
    if !Asks(s.h, size, fast) then (s.w, 0)
    else
      var (_, ok, at) := P.Map(s.w.mem, false, Pages(size));
      (P.Step(s.w, P.MapOp(false, Pages(size))), if ok then at else 0)
  }

  ghost function Step(s: System, op: Op): (r: System)
    requires P.Sound(s.w) && OpOk(s, op)
  {
    match op
    case AllocOp(size, fast) =>
      var (w, page) := Obtain(s, size, fast);
      System(H.AllocCall(s.h, size, fast, page).0, w)
    case FreeOp(ptr) => System(H.Free(s.h, ptr).0, s.w)
    case ReallocOp(ptr, size) =>
      var (w, page) := if H.Allocates(s.h, ptr, size) then Obtain(s, size, false) else (s.w, 0);
      System(H.Realloc(s.h, ptr, size, page).0, w)
    case PagingOp(p) => System(s.h, P.Step(s.w, p))
  }

  /** The call meets neither hazard of the allocator, and pages it gets end below 4 GiB. */
  ghost predicate AllocOk(s: System, size: nat, fast: bool)
    requires P.Sound(s.w)
  {
    var (_, page) := Obtain(s, size, fast);
    && (page != 0 ==> page + Pages(size) * PAGE < TWO32)
    && (size <= H.MAXREQ ==> H.AllocSafe(s.h, size, fast, page))
  }

  ghost predicate OpOk(s: System, op: Op)
    requires P.Sound(s.w)
  {
    match op
    case AllocOp(size, fast) => AllocOk(s, size, fast)
    case FreeOp(ptr) => H.Known(s.h, ptr)
    case ReallocOp(ptr, size) => H.Known(s.h, ptr) && (H.Allocates(s.h, ptr, size) ==> AllocOk(s, size, false))
    case PagingOp(_) => true
  }

  /** Pages in use stay in use, so ranges stay backed. */
  lemma StillBacked(pages: set<(nat, nat)>, w: P.World, r: P.World)
    requires P.Ok(w.mem) && P.Ok(r.mem) && P.Follows(w, r) && Backed(pages, w.mem)
    ensures Backed(pages, r.mem)
  {
    forall p | p in pages ensures RangeBacked(p, r.mem) { assert RangeBacked(p, w.mem); }
  }

  /** What an allocation gets is fresh: the heap's assumption on allocPage holds. */
  lemma ObtainFresh(s: System, size: nat, fast: bool) returns (w: P.World, page: nat, pages: set<(nat, nat)>)
    requires Inv(s) && AllocOk(s, size, fast)
    ensures (w, page) == Obtain(s, size, fast) && P.Sound(w)
    ensures size <= H.MAXREQ ==> H.PageOk(s.h, size, page)
    ensures pages == H.AllocCall(s.h, size, fast, page).0.pages && Backed(pages, w.mem)
  {
    w, page := Obtain(s, size, fast).0, Obtain(s, size, fast).1;
    pages := s.h.pages;
    if Asks(s.h, size, fast) {
      P.StepSound(s.w, P.MapOp(false, Pages(size)));
      StillBacked(s.h.pages, s.w, w);
      if page != 0 {
        MappedIsFresh(s.h, s.w.mem, Pages(size));
        pages := s.h.pages + {(page, page + Pages(size) * PAGE)};
      }
    }
    PagesAfter(s.h, size, fast, page);
  }

  /** The ranges an allocation leaves. */
  lemma PagesAfter(h: H.Heap, size: nat, fast: bool, page: nat)
    ensures H.AllocCall(h, size, fast, page).0.pages ==
      if Asks(h, size, fast) && page != 0 then h.pages + {(page, page + Pages(size) * PAGE)} else h.pages
  {
  }

  lemma StepInv(s: System, op: Op)
    requires Inv(s) && OpOk(s, op)
    ensures Inv(Step(s, op))
  {
    match op
    case AllocOp(size, fast) =>
      var w, page, pages := ObtainFresh(s, size, fast);
      H.StepInv(s.h, H.AllocOp(size, fast, page));
    case FreeOp(ptr) => H.StepInv(s.h, H.FreeOp(ptr));
    case ReallocOp(ptr, size) =>
      if H.Allocates(s.h, ptr, size) {
        var w, page, pages := ObtainFresh(s, size, false);
        H.StepInv(s.h, H.ReallocOp(ptr, size, page));
      } else {
        H.StepInv(s.h, H.ReallocOp(ptr, size, 0));
      }
    case PagingOp(p) =>
      P.StepSound(s.w, p);
      StillBacked(s.h.pages, s.w, P.Step(s.w, p));
  }

  ghost predicate Run(s: System, ops: seq<Op>, r: System)
    decreases |ops|
  {
    if ops == [] then r == s else Inv(s) && OpOk(s, ops[0]) && Run(Step(s, ops[0]), ops[1..], r)
  }

  /** On every run of heap and paging operations together, with pages that map supplies, the heap and
      the page tables stay sound and all the heap's ranges stay mapped. */
  lemma {:induction false} RunInv(s: System, ops: seq<Op>, r: System)
    requires Inv(s) && Run(s, ops, r)
    ensures Inv(r)
    decreases |ops|
  {
    if ops != [] {
      StepInv(s, ops[0]);
      RunInv(Step(s, ops[0]), ops[1..], r);
    }
  }
}
