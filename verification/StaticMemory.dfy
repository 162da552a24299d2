/** Static memory against the frames that map and getPage give out. Static allocation, and so every
    new page table, takes the next address without asking the bitmap (src/paging.cpp:96-114,
    arch/x86/pagingx86.cpp:489-504): here is exactly when it stays clear of frames given out. */
module StaticMemory {
  import opened Basics
  import B = Bits
  import opened PagingModel

  // ------------------------------------------------------------------ static memory only rises

  /** The address does not run past 32 bits. */
  predicate StaticRises(m: Mem, size: nat) {
    m.free <= Align(m.free) && Align(m.free) + size < TWO32
  }

  predicate ReserveRises(m: Mem, v: nat) {
    v / PER_TABLE in m.tables || StaticRises(m, PAGE)
  }

  predicate RangeRises(m: Mem, v: nat, n: nat, user: bool)
    requires Formed(m) && v < PAGES
    decreases n
  {
    n > 0 ==> ReserveRises(m, v)
              && (MapPage(m, v, user).1 ==> RangeRises(MapPage(m, v, user).0, Next(v), n - 1, user))
  }

  /** Static memory grew from m to n, and every frame it grew over is marked. */
  ghost predicate Grew(m: Mem, n: Mem)
    requires Formed(m) && Formed(n)
  {
    && m.free <= n.free && Grows(m.bits, n.bits)
    && forall k: nat | m.free <= k * PAGE < n.free && k < n.bits.cnt :: Marked(n.bits, k)
  }

  lemma GrewTrans(m: Mem, q: Mem, n: Mem)
    requires Formed(m) && Formed(q) && Formed(n) && Grew(m, q) && Grew(q, n)
    ensures Grew(m, n)
  {
    GrowsTrans(m.bits, q.bits, n.bits);
    forall k: nat | m.free <= k * PAGE < n.free && k < n.bits.cnt ensures Marked(n.bits, k) {
      if k * PAGE < q.free { assert Marked(q.bits, k); }
    }
  }

  lemma PageBounds(a: nat, k: nat, b: nat)
    requires a <= k * PAGE < b && a % PAGE == 0
    ensures a / PAGE <= k <= b / PAGE
  {
  }

  lemma StaticGrew(m: Mem, size: nat)
    requires Ok(m) && m.free < TWO32 && StaticRises(m, size)
    ensures Grew(m, Static(m, size).0) && Static(m, size).0.free < TWO32
  {
    var (n, at) := Static(m, size);
    StaticGrows(m, size);
    AlignFacts(m.free);
    forall k: nat | m.free <= k * PAGE < n.free && k < n.bits.cnt ensures Marked(n.bits, k) {
      AlignBelow(m.free, k);
      PageBounds(at, k, n.free);
    }
  }

  /** No page starts between an address and its alignment. */
  lemma AlignBelow(a: nat, k: nat)
    requires a <= k * PAGE && a <= Align(a)
    ensures Align(a) <= k * PAGE
  {
    if a % PAGE != 0 {
      var q := a / PAGE;
      assert a == PAGE * q + a % PAGE;
      assert k > q;
      assert Align(a) <= PAGE * (q + 1);
    }
  }

  lemma ReserveGrew(m: Mem, v: nat)
    requires Ok(m) && v < PAGES && m.free < TWO32 && ReserveRises(m, v)
    ensures Ok(Reserve(m, v).0) && Grew(m, Reserve(m, v).0) && Reserve(m, v).0.free < TWO32
  {
    ReserveKeeps(m, v);
    if v / PER_TABLE !in m.tables { StaticGrew(m, PAGE); }
  }

  /** Marking more frames and writing entries leaves static memory as it is. */
  lemma SameFree(m: Mem, q: Mem, n: Mem)
    requires Formed(m) && Formed(q) && Formed(n) && Grew(m, q) && Grows(q.bits, n.bits) && n.free == q.free
    ensures Grew(m, n)
  {
    GrowsTrans(m.bits, q.bits, n.bits);
  }

  lemma PageGrew(m: Mem, v: nat, user: bool)
    requires Ok(m) && B.SafeCount(m.bits.cnt) && v < PAGES && m.free < TWO32 && ReserveRises(m, v)
    ensures var n := MapPage(m, v, user).0;
      Ok(n) && Grew(m, n) && n.free < TWO32
  {
    MapPageFresh(m, v, user);
    ReserveGrew(m, v);
    var (q, ok) := Reserve(m, v);
    if ok && IsAvail(Entry(q, v)) {
      B.StepHint(q.bits, B.FindOp);
      if B.FindUnset(q.bits).1.Some? { GiveFrame(q, q, v, user); }
      SameFree(m, q, GivePage(q, v, user).0);
    }
  }

  lemma {:induction false} RangeGrew(m: Mem, v: nat, n: nat, user: bool)
    requires Ok(m) && B.SafeCount(m.bits.cnt) && v < PAGES && m.free < TWO32 && RangeRises(m, v, n, user)
    ensures var r := MapRange(m, v, n, user).0;
      Ok(r) && Grew(m, r) && r.free < TWO32
    decreases n
  {
    if n > 0 {
      PageGrew(m, v, user);
      var (q, ok) := MapPage(m, v, user);
      if ok {
        RangeGrew(q, Next(v), n - 1, user);
        GrewTrans(m, q, MapRange(q, Next(v), n - 1, user).0);
      }
    }
  }

  lemma IdentityGrew(m: Mem, v: nat, adr: nat, user: bool)
    requires Ok(m) && v < PAGES && m.free < TWO32 && ReserveRises(m, v)
    ensures var n := Identity(m, v, adr, user).0;
      Ok(n) && Grew(m, n) && n.free < TWO32
  {
    IdentityKeeps(m, v, adr, user);
    ReserveGrew(m, v);
    var (q, ok) := Reserve(m, v);
    if ok {
      SetGrows(q.bits, adr / PAGE);
      SameFree(m, q, Identity(m, v, adr, user).0);
    }
  }

  lemma PhysGrew(m: Mem, phys: nat, user: bool)
    requires Ok(m) && m.heap < TWO32 && m.userHeap < TWO32 && m.free < TWO32
    requires Cursor(m, user) / PAGE < PAGES && ReserveRises(Advance(m, user, 1), Cursor(m, user) / PAGE)
    ensures var n := MapPhys(m, phys, user).0;
      Ok(n) && Grew(m, n) && n.free < TWO32
  {
    MapPhysKeeps(m, phys, user);
    var a, v := Advance(m, user, 1), Cursor(m, user) / PAGE;
    ReserveGrew(a, v);
    var (q, ok) := Reserve(a, v);
    if ok && IsAvail(Entry(q, v)) {
      IdentityGrew(q, v, phys, user);
      GrewTrans(a, q, Identity(q, v, phys, user).0);
    }
  }

  // ------------------------------------------------------------------ frames given out

  /** Frames that map or getPage gave out. */
  function Given(w: World): (g: set<nat>) {
    w.taken + w.filled.Values
  }

  lemma GivenMarked(w: World, f: nat)
    requires Sound(w) && f in Given(w)
    ensures Marked(w.mem.bits, f)
  {
    if f !in w.taken {
      var v :| v in w.filled && w.filled[v] == f;
    }
  }

  /** A frame given out by a step was not marked before it. */
  lemma NewlyGiven(w: World, op: Op, f: nat)
    requires Sound(w) && f in Given(Step(w, op)) && f !in Given(w)
    ensures !Marked(w.mem.bits, f)
  {
    StepSound(w, op);
    if op.FrameOp? { FrameSound(w); }
  }

  /** None of the frames starts in the addresses from lo to hi. */
  predicate AreaClear(g: set<nat>, lo: nat, hi: nat) {
    forall f | f in g :: !(lo <= f * PAGE < hi)
  }

  /** Static memory from base on, as far as it reached, is marked. */
  ghost predicate StaticMarked(m: Mem, base: nat)
    requires Formed(m)
  {
    && base <= m.free < TWO32
    && forall k: nat | base <= k * PAGE < m.free && k < m.bits.cnt :: Marked(m.bits, k)
  }

  /** No frame given out lies in static memory from base on. */
  predicate StaticApart(w: World, base: nat) {
    AreaClear(Given(w), base, w.mem.free)
  }

  // ------------------------------------------------------------------ what a caller can check

  /** The next size bytes of static memory hold no frame of g. */
  predicate StaticClear(g: set<nat>, m: Mem, size: nat) {
    AreaClear(g, m.free, Align(m.free) + size)
  }

  predicate ReserveClear(g: set<nat>, m: Mem, v: nat) {
    v / PER_TABLE in m.tables || StaticClear(g, m, PAGE)
  }

  /** Before every turn of map the table it may add is clear of the frames given out until then. */
  predicate RangeClear(g: set<nat>, m: Mem, v: nat, n: nat, user: bool)
    requires Formed(m) && v < PAGES
    decreases n
  {
    n > 0 ==>
      && ReserveClear(g, m, v)
      && var (q, ok) := MapPage(m, v, user);
         ok ==> RangeClear(g + {Frame(Entry(q, v))}, q, Next(v), n - 1, user)
  }

  /** The static memory that op is about to take, page tables included, holds no frame given out. */
  predicate OpClear(w: World, op: Op)
    requires Formed(w.mem)
  {
    match op
    case MapOp(user, cnt) =>
      Cursor(w.mem, user) / PAGE < PAGES
      && RangeClear(Given(w), Advance(w.mem, user, cnt), Cursor(w.mem, user) / PAGE, cnt, user)
    case FrameOp => true
    case IdentityOp(adr) =>
      ReserveClear(Given(w.(filled := w.filled - {Wrap(adr) / PAGE})), w.mem, Wrap(adr) / PAGE)
    case PhysOp(phys, user) => ReserveClear(Given(w), w.mem, Cursor(w.mem, user) / PAGE)
    case StaticOp(size) => StaticClear(Given(w), w.mem, size)
  }

  /** The addresses do not run past 32 bits. */
  predicate OpRises(w: World, op: Op)
    requires Formed(w.mem)
  {
    match op
    case MapOp(user, cnt) =>
      Cursor(w.mem, user) / PAGE < PAGES
      && RangeRises(Advance(w.mem, user, cnt), Cursor(w.mem, user) / PAGE, cnt, user)
    case FrameOp => true
    case IdentityOp(adr) => ReserveRises(w.mem, Wrap(adr) / PAGE)
    case PhysOp(phys, user) => ReserveRises(Advance(w.mem, user, 1), Cursor(w.mem, user) / PAGE)
    case StaticOp(size) => StaticRises(w.mem, size)
  }

  // ------------------------------------------------------------------ one map

  /** None of the entries that differ between m and r has a frame in the addresses from lo to hi. */
  ghost predicate NewClear(m: Mem, r: Mem, lo: nat, hi: nat)
    requires TablesOk(m) && TablesOk(r)
  {
    forall u: nat :: PageClear(m, r, u, lo, hi)
  }

  predicate PageClear(m: Mem, r: Mem, u: nat, lo: nat, hi: nat)
    requires TablesOk(m) && TablesOk(r)
  {
    Entry(r, u) != Entry(m, u) ==> !(lo <= Frame(Entry(r, u)) * PAGE < hi)
  }

  /** Static memory stayed apart from g up to m; up to n it does exactly if the part added is clear. */
  lemma ApartGrew(g: set<nat>, m: Mem, n: Mem, base: nat, hi: nat)
    requires base <= m.free <= n.free && AreaClear(g, base, m.free) && (hi == n.free || n.free == m.free)
    requires hi >= m.free
    ensures n.free == hi ==> (AreaClear(g, base, n.free) <==> AreaClear(g, m.free, hi))
    ensures n.free == m.free ==> AreaClear(g, base, n.free)
  {
  }

  /** One turn of map: its reservation, and a frame that was not marked. */
  lemma TurnApart(g: set<nat>, m: Mem, v: nat, user: bool, base: nat) returns (q: Mem, ok: bool, w: nat)
    requires Ok(m) && B.SafeCount(m.bits.cnt) && v < PAGES && ReserveRises(m, v)
    requires StaticMarked(m, base) && AreaClear(g, base, m.free)
    ensures (q, ok) == MapPage(m, v, user) && w == Next(v)
    ensures Ok(q) && q.bits.cnt == m.bits.cnt && StaticMarked(q, base)
    ensures AreaClear(g, base, q.free) <==> ReserveClear(g, m, v)
    ensures forall u: nat | u != v || !ok :: Entry(q, u) == Entry(m, u)
    ensures ok ==> MappedPage(m, q, v) && !(base <= Frame(Entry(q, v)) * PAGE < q.free)
  {
    q, ok, w := MapPage(m, v, user).0, MapPage(m, v, user).1, Next(v);
    PageGrew(m, v, user);
    MarkedGrew(m, q, base);
    MapPageFresh(m, v, user);
    assert q.free == Reserve(m, v).0.free;
    if v / PER_TABLE !in m.tables { ApartGrew(g, m, q, base, Align(m.free) + PAGE); }
    if ok { FrameBehind(m, v, user, base); }
  }

  lemma MarkedGrew(m: Mem, n: Mem, base: nat)
    requires Formed(m) && Formed(n) && StaticMarked(m, base) && Grew(m, n) && n.free < TWO32
    ensures StaticMarked(n, base)
  {
    forall k: nat | base <= k * PAGE < n.free && k < n.bits.cnt ensures Marked(n.bits, k) {
      if k * PAGE < m.free { assert Marked(m.bits, k); }
    }
  }

  /** The frame a turn gives out was not marked after its reservation, so it is not static memory. */
  lemma FrameBehind(m: Mem, v: nat, user: bool, base: nat)
    requires Ok(m) && B.SafeCount(m.bits.cnt) && v < PAGES && ReserveRises(m, v) && MapPage(m, v, user).1
    requires StaticMarked(m, base)
    ensures Ok(MapPage(m, v, user).0)
    ensures !(base <= Frame(Entry(MapPage(m, v, user).0, v)) * PAGE < MapPage(m, v, user).0.free)
  {
    ReserveGrew(m, v);
    ReserveKeeps(m, v);
    var n := Reserve(m, v).0;
    MarkedGrew(m, n, base);
    GiveFrame(n, n, v, user);
  }

  /** Over the loop: static memory stays apart from the frames of g and from those the loop gives out
      if and only if every table it adds is clear before its turn. */
  lemma {:induction false} RangeApart(g: set<nat>, m: Mem, v: nat, n: nat, user: bool, base: nat, r: Mem)
    requires Ok(m) && B.SafeCount(m.bits.cnt) && v < PAGES && RangeRises(m, v, n, user)
    requires StaticMarked(m, base) && AreaClear(g, base, m.free) && r == MapRange(m, v, n, user).0
    ensures Formed(r)
    ensures AreaClear(g, base, r.free) && NewClear(m, r, base, r.free) <==> RangeClear(g, m, v, n, user)
    decreases n
  {
    if n > 0 {
      var q, ok, w := TurnApart(g, m, v, user, base);
      if ok {
        var f := Frame(Entry(q, v));
        var more := g + {f};
        if AreaClear(g, base, q.free) { RangeApart(more, q, w, n - 1, user, base, r); }
        RestApart(g, m, q, r, v, w, n - 1, user, base, f, more);
      }
    }
  }

  /** The frames of the first turn and of the rest. */
  lemma RestApart(g: set<nat>, m: Mem, q: Mem, r: Mem, v: nat, w: nat, n: nat, user: bool, base: nat, f: nat,
                  more: set<nat>)
    requires Formed(m) && Ok(q) && B.SafeCount(q.bits.cnt) && w < PAGES && q.free < TWO32 && RangeRises(q, w, n, user)
    requires r == MapRange(q, w, n, user).0 && MappedPage(m, q, v) && f == Frame(Entry(q, v)) && more == g + {f}
    requires forall u: nat | u != v :: Entry(q, u) == Entry(m, u)
    ensures Formed(r) && q.free <= r.free
    ensures AreaClear(g, base, r.free) && NewClear(m, r, base, r.free) <==>
            AreaClear(more, base, r.free) && NewClear(q, r, base, r.free)
  {
    RangeGrew(q, w, n, user);
    MapRangeFresh(q, w, n, user);
    ClearJoin(m, q, r, v, base, r.free);
  }

  lemma ClearJoin(m: Mem, q: Mem, r: Mem, v: nat, lo: nat, hi: nat)
    requires Formed(m) && Formed(q) && Formed(r) && MappedPage(m, q, v) && FreshChanges(q, r)
    requires forall u: nat | u != v :: Entry(q, u) == Entry(m, u)
    ensures NewClear(m, r, lo, hi) <==> !(lo <= Frame(Entry(q, v)) * PAGE < hi) && NewClear(q, r, lo, hi)
  {
    assert KeptOrMapped(q, r, v);
    assert Entry(r, v) == Entry(q, v) && Entry(q, v) != Entry(m, v);
    assert NewClear(m, r, lo, hi) ==> PageClear(m, r, v, lo, hi);
    forall u: nat | u != v ensures PageClear(m, r, u, lo, hi) <==> PageClear(q, r, u, lo, hi) {}
    assert PageClear(q, r, v, lo, hi);
    if NewClear(m, r, lo, hi) {
      forall u: nat ensures PageClear(q, r, u, lo, hi) { assert PageClear(m, r, u, lo, hi); }
    }
  }

  /** r is w after entries of pages in vs were filled. */
  ghost predicate FilledIn(w: World, r: World, vs: set<nat>) {
    && Sound(w) && Sound(r) && r.taken == w.taken && r.filled == w.filled + Changed(w.mem, r.mem, vs)
    && FreshChanges(w.mem, r.mem) && forall u: nat | u !in vs :: Entry(r.mem, u) == Entry(w.mem, u)
  }

  /** After a map the frames given out are those before and those of the entries that changed. */
  lemma MapGiven(w: World, r: World, vs: set<nat>, lo: nat, hi: nat)
    requires FilledIn(w, r, vs)
    ensures AreaClear(Given(r), lo, hi) <==> AreaClear(Given(w), lo, hi) && NewClear(w.mem, r.mem, lo, hi)
  {
    if AreaClear(Given(r), lo, hi) {
      NewGiven(w, r, vs, lo, hi);
      StillGiven(w, r, vs, lo, hi);
    }
    if AreaClear(Given(w), lo, hi) && NewClear(w.mem, r.mem, lo, hi) { NoOthers(w, r, vs, lo, hi); }
  }

  lemma NewGiven(w: World, r: World, vs: set<nat>, lo: nat, hi: nat)
    requires FilledIn(w, r, vs) && AreaClear(Given(r), lo, hi)
    ensures NewClear(w.mem, r.mem, lo, hi)
  {
    forall u: nat ensures PageClear(w.mem, r.mem, u, lo, hi) {
      if Entry(r.mem, u) != Entry(w.mem, u) { assert r.filled[u] in Given(r); }
    }
  }

  lemma StillGiven(w: World, r: World, vs: set<nat>, lo: nat, hi: nat)
    requires FilledIn(w, r, vs) && AreaClear(Given(r), lo, hi)
    ensures AreaClear(Given(w), lo, hi)
  {
    forall f | f in Given(w) ensures !(lo <= f * PAGE < hi) {
      if f !in w.taken {
        var v :| v in w.filled && w.filled[v] == f;
        assert KeptOrMapped(w.mem, r.mem, v);
        assert r.filled[v] == f && f in Given(r);
      }
    }
  }

  lemma NoOthers(w: World, r: World, vs: set<nat>, lo: nat, hi: nat)
    requires FilledIn(w, r, vs) && AreaClear(Given(w), lo, hi) && NewClear(w.mem, r.mem, lo, hi)
    ensures AreaClear(Given(r), lo, hi)
  {
    forall f | f in Given(r) ensures !(lo <= f * PAGE < hi) {
      if f !in w.taken {
        var v :| v in r.filled && r.filled[v] == f;
        assert PageClear(w.mem, r.mem, v, lo, hi);
      }
    }
  }

  // ------------------------------------------------------------------ one step

  /** A step keeps static memory apart from the frames given out if and only if, before it, the static
      memory it is about to take holds none of them. */
  lemma StepApartIff(w: World, op: Op, base: nat)
    requires Sound(w) && StaticMarked(w.mem, base) && StaticApart(w, base) && OpRises(w, op)
    ensures Sound(Step(w, op)) && StaticMarked(Step(w, op).mem, base)
    ensures StaticApart(Step(w, op), base) <==> OpClear(w, op)
  {
    StepGrew(w, op);
    MarkedGrew(w.mem, Step(w, op).mem, base);
    match op
    case MapOp(user, cnt) => MapApart(w, user, cnt, base);
    case FrameOp => FrameApart(w, base);
    case IdentityOp(adr) => IdentityApart(w, adr, base);
    case PhysOp(phys, user) => PhysApart(w, phys, user, base);
    case StaticOp(size) => ApartGrew(Given(w), w.mem, Step(w, op).mem, base, Align(w.mem.free) + size);
  }

  lemma StepGrew(w: World, op: Op)
    requires Sound(w) && w.mem.free < TWO32 && OpRises(w, op)
    ensures Sound(Step(w, op)) && Grew(w.mem, Step(w, op).mem) && Step(w, op).mem.free < TWO32
  {
    StepSound(w, op);
    match op
    case MapOp(user, cnt) =>
      AlignFacts(if user then w.mem.userHeap else w.mem.heap);
      RangeGrew(Advance(w.mem, user, cnt), Cursor(w.mem, user) / PAGE, cnt, user);
    case FrameOp =>
    case IdentityOp(adr) => IdentityGrew(w.mem, Wrap(adr) / PAGE, Wrap(adr), false);
    case PhysOp(phys, user) =>
      AlignFacts(if user then w.mem.userHeap else w.mem.heap);
      PhysGrew(w.mem, phys, user);
    case StaticOp(size) => StaticGrew(w.mem, size);
  }

  lemma MapApart(w: World, user: bool, cnt: nat, base: nat)
    requires Sound(w) && StaticMarked(w.mem, base) && StaticApart(w, base) && OpRises(w, MapOp(user, cnt))
    ensures StaticApart(Step(w, MapOp(user, cnt)), base) <==> OpClear(w, MapOp(user, cnt))
  {
    var m, v, r := Advance(w.mem, user, cnt), Cursor(w.mem, user) / PAGE, Step(w, MapOp(user, cnt));
    MapSound(w, user, cnt);
    MapFresh(w.mem, user, cnt);
    MapGiven(w, r, Range(v, cnt), base, r.mem.free);
    RangeApart(Given(w), m, v, cnt, user, base, r.mem);
    SameEntries(w.mem, m, r.mem, base, r.mem.free);
  }

  lemma SameEntries(m: Mem, q: Mem, r: Mem, lo: nat, hi: nat)
    requires TablesOk(m) && TablesOk(q) && TablesOk(r) && forall u: nat :: Entry(q, u) == Entry(m, u)
    ensures NewClear(m, r, lo, hi) <==> NewClear(q, r, lo, hi)
  {
    forall u: nat ensures PageClear(m, r, u, lo, hi) <==> PageClear(q, r, u, lo, hi) {}
  }

  lemma FrameApart(w: World, base: nat)
    requires Sound(w) && StaticMarked(w.mem, base) && StaticApart(w, base)
    ensures StaticApart(Step(w, FrameOp), base)
  {
    StepSound(w, FrameOp);
    var r := Step(w, FrameOp);
    forall f | f in Given(r) ensures !(base <= f * PAGE < r.mem.free) {
      if f !in Given(w) {
        NewlyGiven(w, FrameOp, f);
        GivenMarked(r, f);
      }
    }
  }

  lemma IdentityApart(w: World, adr: nat, base: nat)
    requires Sound(w) && StaticMarked(w.mem, base) && StaticApart(w, base) && OpRises(w, IdentityOp(adr))
    ensures StaticApart(Step(w, IdentityOp(adr)), base) <==> OpClear(w, IdentityOp(adr))
  {
    var v := Wrap(adr) / PAGE;
    var r, n := Step(w, IdentityOp(adr)), Reserve(w.mem, v).0;
    var left := w.(filled := w.filled - {v});
    assert r.mem.free == n.free && Given(r) == Given(left);
    assert forall f | f in Given(left) :: f in Given(w);
    if v / PER_TABLE !in w.mem.tables {
      ApartGrew(Given(left), w.mem, r.mem, base, Align(w.mem.free) + PAGE);
    }
  }

  lemma PhysApart(w: World, phys: nat, user: bool, base: nat)
    requires Sound(w) && StaticMarked(w.mem, base) && StaticApart(w, base) && OpRises(w, PhysOp(phys, user))
    ensures StaticApart(Step(w, PhysOp(phys, user)), base) <==> OpClear(w, PhysOp(phys, user))
  {
    AlignFacts(if user then w.mem.userHeap else w.mem.heap);
    var a, v := Advance(w.mem, user, 1), Cursor(w.mem, user) / PAGE;
    var r, n := Step(w, PhysOp(phys, user)), Reserve(a, v).0;
    assert r.mem.free == n.free && Given(r) == Given(w);
    if v / PER_TABLE !in w.mem.tables {
      ApartGrew(Given(w), w.mem, r.mem, base, Align(w.mem.free) + PAGE);
    }
  }

  // ------------------------------------------------------------------ runs

  ghost predicate Rising(w: World, ops: seq<Op>)
    decreases |ops|
  {
    Sound(w) && (ops == [] || (OpRises(w, ops[0]) && Rising(Step(w, ops[0]), ops[1..])))
  }

  /** Static memory is apart from the frames given out in every state of the run. */
  ghost predicate ApartThroughout(w: World, ops: seq<Op>, base: nat)
    decreases |ops|
  {
    StaticApart(w, base) && (ops == [] || (Sound(w) && ApartThroughout(Step(w, ops[0]), ops[1..], base)))
  }

  /** Every step is clear in the state before it. */
  ghost predicate ClearThroughout(w: World, ops: seq<Op>)
    decreases |ops|
  {
    ops == [] || (Sound(w) && OpClear(w, ops[0]) && ClearThroughout(Step(w, ops[0]), ops[1..]))
  }

  /** A run keeps static memory apart from the frames given out throughout if and only if each of its
      steps is clear. */
  lemma {:induction false} RunApartIff(w: World, ops: seq<Op>, base: nat)
    requires Rising(w, ops) && StaticMarked(w.mem, base) && StaticApart(w, base)
    ensures ApartThroughout(w, ops, base) <==> ClearThroughout(w, ops)
    decreases |ops|
  {
    if ops != [] {
      StepApartIff(w, ops[0], base);
      if OpClear(w, ops[0]) { RunApartIff(Step(w, ops[0]), ops[1..], base); }
    }
  }

  /** The addresses from base to limit are set aside: marked, and not given out. */
  ghost predicate Reserved(w: World, base: nat, limit: nat)
    requires Formed(w.mem)
  {
    && (forall k: nat | base <= k * PAGE < limit && k < w.mem.bits.cnt :: Marked(w.mem.bits, k))
    && AreaClear(Given(w), base, limit)
  }

  lemma StepReserved(w: World, op: Op, base: nat, limit: nat)
    requires Sound(w) && Reserved(w, base, limit)
    ensures Sound(Step(w, op)) && Reserved(Step(w, op), base, limit)
  {
    StepSound(w, op);
    var r := Step(w, op);
    forall f | f in Given(r) ensures !(base <= f * PAGE < limit) {
      if f !in Given(w) {
        NewlyGiven(w, op, f);
        GivenMarked(r, f);
      }
    }
  }

  /** What is set aside at the start stays so on every run, and as long as static memory has not
      outgrown it, no frame given out lies in static memory. */
  lemma {:induction false} RunReserved(w: World, ops: seq<Op>, r: World, base: nat, limit: nat)
    requires Sound(w) && Reserved(w, base, limit) && Run(w, ops, r)
    ensures Sound(r) && Reserved(r, base, limit)
    ensures r.mem.free <= limit ==> StaticApart(r, base)
    decreases |ops|
  {
    if ops != [] {
      StepReserved(w, ops[0], base, limit);
      RunReserved(Step(w, ops[0]), ops[1..], r, base, limit);
    }
  }
}
