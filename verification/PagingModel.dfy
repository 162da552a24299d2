/** Frames and two-level page tables (arch/x86/pagingx86.cpp, arch/x86/pagingx86.h), laid out as in
    section 4.3 of the Intel SDM Volume 3A: 1024 tables of 1024 entries, an entry holding flags
    in its low 12 bits and the frame address above them. */
module PagingModel {
  import opened Basics
  import opened Bits

  const PER_TABLE := 1024
  const PAGES := 0x10_0000          // virtual pages

  // ------------------------------------------------------------------ page entries

  predicate Present(v: nat) {
    v % 2 == 1
  }

  /** The entry's frame address: the value with its low 12 bits masked off. */
  function Address(v: nat): (a: nat) {
    v - v % PAGE
  }

  function Frame(v: nat): (f: nat) {
    v / PAGE
  }

  predicate IsAvail(v: nat) {
    Address(v) == 0 && !Present(v)
  }

  function SetPresent(v: nat, on: bool): (r: nat) {
    if on == (v % 2 == 1) then v else if on then v + 1 else v - 1
  }

  function SetRw(v: nat, on: bool): (r: nat) {
    if on == ((v / 2) % 2 == 1) then v else if on then v + 2 else v - 2
  }

  function SetUserspace(v: nat, on: bool): (r: nat) {
    if on == ((v / 4) % 2 == 1) then v else if on then v + 4 else v - 4
  }

  function SetAddress(v: nat, adr: nat): (r: nat) {
    adr - adr % PAGE + v % PAGE
  }

  /** The entry mapFrame and identityMapFrame leave: present, writable, owned, at the address. */
  function Filled(v: nat, adr: nat, user: bool): (r: nat) {
    SetAddress(SetUserspace(SetRw(SetPresent(v, true), true), user), adr)
  }

  lemma Halve(n: nat, b: nat)
    requires b < 2
    ensures (2 * n + b) / 2 == n
  {
  }

  lemma Quarter(n: nat, b: nat)
    requires b < 4
    ensures (4 * n + b) / 4 == n
  {
  }

  lemma Parity(n: nat, y: nat)
    ensures (2 * n + y) % 2 == y % 2
  {
  }

  /** The low three flags of a value that ends in the 12 bits x. */
  lemma LowFlags(k: nat, x: nat)
    requires x < PAGE
    ensures var v := PAGE * k + x;
      v % 2 == x % 2 && (v / 2) % 2 == (x / 2) % 2 && (v / 4) % 2 == (x / 4) % 2
  {
    Parity(2048 * k, x);
    Halve(2048 * k + x / 2, x % 2);
    Parity(1024 * k, x / 2);
    Quarter(1024 * k + x / 4, x % 4);
    Parity(512 * k, x / 4);
  }

  lemma High(k: nat, x: nat)
    requires x < PAGE
    ensures (PAGE * k + x) / PAGE == k && (PAGE * k + x) % PAGE == x
  {
  }

  /** The three flags as the setters leave them. */
  lemma FlagFacts(v: nat, user: bool)
    ensures var c := SetUserspace(SetRw(SetPresent(v, true), true), user);
      c % 2 == 1 && (c / 2) % 2 == 1 && ((c / 4) % 2 == 1 <==> user)
  {
    var a := SetPresent(v, true);
    assert a % 2 == 1;
    RwFacts(a);
    UserFacts(SetRw(a, true), user);
  }

  lemma RwFacts(v: nat)
    ensures (SetRw(v, true) / 2) % 2 == 1 && SetRw(v, true) % 2 == v % 2
  {
    var k, x := v / 2, v % 2;
    assert v == 2 * k + x;
    Halve(k + 1, x);
    Parity(k, x);
    Parity(k + 1, x);
  }

  lemma UserFacts(v: nat, user: bool)
    ensures var c := SetUserspace(v, user);
      ((c / 4) % 2 == 1 <==> user) && c % 2 == v % 2 && (c / 2) % 2 == (v / 2) % 2
  {
    var c := SetUserspace(v, user);
    if c != v {
      var low, k := if user then v else c, if user then v / 4 else c / 4;
      var x := low % 4;
      assert low == 4 * k + x;
      Quarter(k, x);
      Quarter(k + 1, x);
      Parity(2 * k, x);
      Parity(2 * (k + 1), x);
      Halve(2 * k + x / 2, x % 2);
      Halve(2 * (k + 1) + x / 2, x % 2);
      Parity(k, x / 2);
      Parity(k + 1, x / 2);
    }
  }

  /** A filled entry is present, writable, owned as asked, and points at the frame asked for. */
  lemma FilledFacts(v: nat, adr: nat, user: bool)
    ensures var r := Filled(v, adr, user);
      && Present(r) && (r / 2) % 2 == 1 && ((r / 4) % 2 == 1 <==> user)
      && Frame(r) == adr / PAGE && !IsAvail(r)
  {
    var c := SetUserspace(SetRw(SetPresent(v, true), true), user);
    FlagFacts(v, user);
    var k, q, x := adr / PAGE, c / PAGE, c % PAGE;
    assert adr - adr % PAGE == PAGE * k && c == PAGE * q + x;
    LowFlags(k, x);
    LowFlags(q, x);
    High(k, x);
  }

  // ------------------------------------------------------------------ state

  /** The frame bitmap, the page tables that exist, the two heap cursors, and the address from
      which static memory is taken. */
  datatype Mem = Mem(bits: Bitmap, tables: map<nat, seq<nat>>, heap: nat, userHeap: nat, free: nat)

  predicate TablesOk(m: Mem) {
    forall i | i in m.tables :: i < PER_TABLE && |m.tables[i]| == PER_TABLE
  }

  predicate Formed(m: Mem) {
    Shaped(m.bits) && TablesOk(m)
  }

  ghost predicate Ok(m: Mem) {
    HintOk(m.bits) && TablesOk(m)
  }

  /** The entry of virtual page v; a page without a table has the empty entry. */
  function Entry(m: Mem, v: nat): (e: nat)
    requires TablesOk(m)
  {
    if v / PER_TABLE in m.tables then m.tables[v / PER_TABLE][v % PER_TABLE] else 0
  }

  predicate Marked(b: Bitmap, f: nat)
    requires Shaped(b)
  {
    f < b.cnt && IsSet(b.words, f)
  }

  function Align(a: nat): (r: nat)
    ensures a < TWO32 && a % PAGE == 0 ==> r == a
  {
    if a % PAGE == 0 then a else Wrap(a + (PAGE - a % PAGE))
  }

  // ------------------------------------------------------------------ static allocation

  /** Marks the frames from f to g. */
  function SetRange(b: Bitmap, f: nat, g: nat): (r: Bitmap)
    requires Shaped(b)
    ensures Shaped(r) && r.cnt == b.cnt && |r.words| == |b.words|
    decreases g - f
  {
    if f > g then b else SetRange(Set(b, f), f + 1, g)
  }

  /** c has every mark of b: nothing was unmarked. */
  ghost predicate Grows(b: Bitmap, c: Bitmap)
    requires Shaped(b) && Shaped(c)
  {
    && c.cnt == b.cnt
    && forall f: nat | Marked(b, f) :: Marked(c, f)
  }

  lemma SetGrows(b: Bitmap, f: nat)
    requires HintOk(b)
    ensures HintOk(Set(b, f)) && Grows(b, Set(b, f))
    ensures f < b.cnt ==> Marked(Set(b, f), f)
  {
    StepHint(b, SetOp(f));
    forall k: nat | k < b.cnt && (Marked(b, k) || k == f) ensures Marked(Set(b, f), k) {
      SetExact(b, f, k);
    }
  }

  lemma {:induction false} RangeGrows(b: Bitmap, f: nat, g: nat)
    requires HintOk(b)
    ensures HintOk(SetRange(b, f, g)) && Grows(b, SetRange(b, f, g))
    ensures forall k | f <= k <= g && k < b.cnt :: Marked(SetRange(b, f, g), k)
    decreases g - f
  {
    if f <= g {
      SetGrows(b, f);
      RangeGrows(Set(b, f), f + 1, g);
    }
  }

  /** Paging::allocStatic (pageAlign, freePageAddress, incFreePageAddress): the address handed
      out, with every frame it touches marked. */
  function Static(m: Mem, size: nat): (r: (Mem, nat))
    requires Shaped(m.bits)
    ensures Shaped(r.0.bits) && r.0.tables == m.tables && r.0.heap == m.heap && r.0.userHeap == m.userHeap
  {
    var b := if m.free % PAGE == 0 then m.bits else Set(m.bits, m.free / PAGE);
    var at := Align(m.free);
    (m.(bits := SetRange(Set(b, at / PAGE), at / PAGE, Wrap(at + size) / PAGE), free := Wrap(at + size)), at)
  }

  /** Every frame from the address handed out to the end, the one behind included, is marked. */
  lemma StaticGrows(m: Mem, size: nat)
    requires HintOk(m.bits)
    ensures HintOk(Static(m, size).0.bits) && Grows(m.bits, Static(m, size).0.bits)
    ensures var (n, at) := Static(m, size);
      forall k: nat | at / PAGE <= k <= Wrap(at + size) / PAGE && k < m.bits.cnt :: Marked(n.bits, k)
  {
    var at := Align(m.free);
    var b := if m.free % PAGE == 0 then m.bits else Set(m.bits, m.free / PAGE);
    SetGrows(m.bits, m.free / PAGE);
    SetGrows(b, at / PAGE);
    RangeGrows(Set(b, at / PAGE), at / PAGE, Wrap(at + size) / PAGE);
  }

  // ------------------------------------------------------------------ tables and entries

  /** A new PageTable: all entries zero. */
  function EmptyTable(): (t: seq<nat>)
    ensures |t| == PER_TABLE && forall i | 0 <= i < PER_TABLE :: t[i] == 0
  {
    seq(PER_TABLE, _ => 0)
  }

  /** PageDir::getPage with reservation (arch/x86/pagingx86.cpp:545-564): a missing table is taken
      from static memory; false when that yields the null address. */
  function Reserve(m: Mem, v: nat): (r: (Mem, bool))
    requires Shaped(m.bits) && v < PAGES
    ensures Shaped(r.0.bits) && r.0.heap == m.heap && r.0.userHeap == m.userHeap
    ensures r.1 ==> v / PER_TABLE in r.0.tables
  {
    if v / PER_TABLE in m.tables then (m, true)
    else
      var (n, at) := Static(m, PAGE);
      if at == 0 then (n, false)
      else (n.(tables := n.tables[v / PER_TABLE := EmptyTable()]), true)
  }

  /** A reservation changes no entry and unmarks no frame. */
  lemma ReserveKeeps(m: Mem, v: nat)
    requires Ok(m) && v < PAGES
    ensures var n := Reserve(m, v).0;
      && Ok(n) && Grows(m.bits, n.bits)
      && (forall u: nat :: Entry(n, u) == Entry(m, u))
  {
    StaticGrows(m, PAGE);
  }

  function Put(m: Mem, v: nat, e: nat): (r: Mem)
    requires TablesOk(m) && v / PER_TABLE in m.tables
    ensures TablesOk(r) && r.bits == m.bits && r.heap == m.heap && r.userHeap == m.userHeap
  {
    var t: seq<nat> := m.tables[v / PER_TABLE];
    var u: seq<nat> := t[v % PER_TABLE := e];
    m.(tables := m.tables[v / PER_TABLE := u])
  }

  /** Writing one page's entry changes that entry only. */
  lemma PutExact(m: Mem, v: nat, e: nat)
    requires TablesOk(m) && v / PER_TABLE in m.tables
    ensures forall u: nat :: Entry(Put(m, v, e), u) == if u == v then e else Entry(m, u)
  {
    forall u: nat ensures Entry(Put(m, v, e), u) == if u == v then e else Entry(m, u) {
      assert u / PER_TABLE == v / PER_TABLE && u % PER_TABLE == v % PER_TABLE ==> u == v;
    }
  }

  /** One turn of the loop in map (arch/x86/pagingx86.cpp:423-445): reserve the page, refuse it if
      it is taken, give it the first free frame. No free frame counts as a failure. */
  function MapPage(m: Mem, v: nat, user: bool): (r: (Mem, bool))
    requires Shaped(m.bits) && TablesOk(m) && v < PAGES
    ensures Shaped(r.0.bits) && TablesOk(r.0) && r.0.heap == m.heap && r.0.userHeap == m.userHeap
  {
    var (n, ok) := Reserve(m, v);
    if !ok || !IsAvail(Entry(n, v)) then (n, false) else GivePage(n, v, user)
  }

  /** mapFrame on a free page: the first free frame is marked and entered. */
  function GivePage(m: Mem, v: nat, user: bool): (r: (Mem, bool))
    requires Formed(m) && v / PER_TABLE in m.tables
    ensures Shaped(r.0.bits) && TablesOk(r.0) && r.0.heap == m.heap && r.0.userHeap == m.userHeap
  {
    var (b, found) := FindUnset(m.bits);
    if found.None? then (m.(bits := b), false)
    else (Put(m.(bits := Set(b, found.value)), v, Filled(Entry(m, v), found.value * PAGE, user)), true)
  }

  /** What mapping page v does to a sound state: the page was free and is present now, on a frame
      that was not marked and is; nothing else changes. */
  predicate MappedPage(m: Mem, n: Mem, v: nat)
    requires Formed(m) && Formed(n)
  {
    && IsAvail(Entry(m, v)) && Present(Entry(n, v))
    && !Marked(m.bits, Frame(Entry(n, v))) && Marked(n.bits, Frame(Entry(n, v)))
  }

  /** What one turn of the loop leaves. */
  ghost predicate PageResult(m: Mem, n: Mem, ok: bool, v: nat)
    requires Formed(m)
  {
    && Ok(n) && Grows(m.bits, n.bits)
    && (forall u: nat | u != v :: Entry(n, u) == Entry(m, u))
    && (if ok then MappedPage(m, n, v) else Entry(n, v) == Entry(m, v))
  }

  lemma MapPageFresh(m: Mem, v: nat, user: bool)
    requires Ok(m) && SafeCount(m.bits.cnt) && v < PAGES
    ensures PageResult(m, MapPage(m, v, user).0, MapPage(m, v, user).1, v)
  {
    var (n, ok) := Reserve(m, v);
    ReserveKeeps(m, v);
    if ok && IsAvail(Entry(n, v)) {
      StepHint(n.bits, FindOp);
      if FindUnset(n.bits).1.Some? {
        GiveFrame(m, n, v, user);
      }
    }
  }

  /** The page of n, a state that only reserved more than m, gets the first free frame. */
  lemma GiveFrame(m: Mem, n: Mem, v: nat, user: bool)
    requires Ok(m) && Ok(n) && Grows(m.bits, n.bits)
    requires SafeCount(n.bits.cnt) && v / PER_TABLE in n.tables && IsAvail(Entry(n, v))
    requires forall u: nat :: Entry(n, u) == Entry(m, u)
    requires FindUnset(n.bits).1.Some?
    ensures PageResult(m, GivePage(n, v, user).0, true, v)
  {
    var (b, found) := FindUnset(n.bits);
    var f := found.value;
    StepHint(n.bits, FindOp);
    HintedEqualsFull(n.bits);
    SafeCountInside(n.bits);
    SetGrows(b, f);
    FilledFacts(Entry(n, v), f * PAGE, user);
    PutExact(n.(bits := Set(b, f)), v, Filled(Entry(n, v), f * PAGE, user));
  }

  // ------------------------------------------------------------------ ranges

  /** The page after v; addresses wrap at 32 bits. */
  function Next(v: nat): (r: nat)
    requires v < PAGES
    ensures r < PAGES
  {
    if v + 1 == PAGES then 0 else v + 1
  }

  function Nth(v: nat, k: nat): (r: nat)
    requires v < PAGES
    ensures r < PAGES
    decreases k
  {
    if k == 0 then v else Nth(Next(v), k - 1)
  }

  /** The loop of map over n pages from v on; it stops at the first page it cannot map. */
  function MapRange(m: Mem, v: nat, n: nat, user: bool): (r: (Mem, bool))
    requires Shaped(m.bits) && TablesOk(m) && v < PAGES
    ensures Shaped(r.0.bits) && TablesOk(r.0) && r.0.heap == m.heap && r.0.userHeap == m.userHeap
    decreases n
  {
    if n == 0 then (m, true)
    else
      var (q, ok) := MapPage(m, v, user);
      if !ok then (q, false) else MapRange(q, Next(v), n - 1, user)
  }

  /** Every page of the range was free and is present on a frame that was not marked before and is
      marked now; no two pages of it share a frame. */
  ghost predicate MappedRange(m: Mem, r: Mem, v: nat, n: nat)
    requires Formed(m) && Formed(r) && v < PAGES
  {
    && (forall k: nat | k < n :: MappedPage(m, r, Nth(v, k)))
    && (forall j: nat, k: nat {:trigger Nth(v, j), Nth(v, k)} | j < k < n ::
          Frame(Entry(r, Nth(v, j))) != Frame(Entry(r, Nth(v, k))))
  }

  /** u is not one of the n pages from v on. */
  ghost predicate Outside(u: nat, v: nat, n: nat)
    requires v < PAGES
  {
    forall k: nat | k < n :: u != Nth(v, k)
  }

  /** Whatever a map changed, whether it succeeded or stopped half way: the changed pages were free
      and are present on frames not marked before, no two of them on the same frame. */
  ghost predicate FreshChanges(m: Mem, r: Mem)
    requires Formed(m) && Formed(r)
  {
    && (forall u: nat {:trigger KeptOrMapped(m, r, u)} :: KeptOrMapped(m, r, u))
    && (forall u: nat, w: nat {:trigger FramesDiffer(m, r, u, w)} :: FramesDiffer(m, r, u, w))
  }

  predicate KeptOrMapped(m: Mem, r: Mem, u: nat)
    requires Formed(m) && Formed(r)
  {
    Entry(r, u) == Entry(m, u) || MappedPage(m, r, u)
  }

  predicate FramesDiffer(m: Mem, r: Mem, u: nat, w: nat)
    requires TablesOk(m) && TablesOk(r)
  {
    u != w && Entry(r, u) != Entry(m, u) && Entry(r, w) != Entry(m, w) ==> Frame(Entry(r, u)) != Frame(Entry(r, w))
  }

  lemma FreshJoin(m: Mem, q: Mem, r: Mem, v: nat)
    requires Formed(m) && Formed(q) && Formed(r) && Grows(m.bits, q.bits) && Grows(q.bits, r.bits)
    requires MappedPage(m, q, v) && FreshChanges(q, r)
    requires forall u: nat | u != v :: Entry(q, u) == Entry(m, u)
    ensures FreshChanges(m, r)
  {
    assert KeptOrMapped(q, r, v);
    assert Entry(r, v) == Entry(q, v);
    forall u: nat ensures KeptOrMapped(m, r, u) {
      assert KeptOrMapped(q, r, u);
    }
    forall u: nat, w: nat ensures FramesDiffer(m, r, u, w) {
      assert KeptOrMapped(q, r, u) && KeptOrMapped(q, r, w) && FramesDiffer(q, r, u, w);
    }
  }

  lemma GrowsTrans(a: Bitmap, b: Bitmap, c: Bitmap)
    requires Shaped(a) && Shaped(b) && Shaped(c) && Grows(a, b) && Grows(b, c)
    ensures Grows(a, c)
  {
  }

  /** What the loop over n pages from v on leaves. */
  ghost predicate RangeResult(m: Mem, r: Mem, ok: bool, v: nat, n: nat)
    requires Formed(m) && v < PAGES
  {
    && Ok(r) && Grows(m.bits, r.bits)
    && (forall u: nat | Outside(u, v, n) :: Entry(r, u) == Entry(m, u))
    && FreshChanges(m, r)
    && (ok ==> MappedRange(m, r, v, n))
  }

  lemma {:induction false} MapRangeFresh(m: Mem, v: nat, n: nat, user: bool)
    requires Ok(m) && SafeCount(m.bits.cnt) && v < PAGES
    ensures RangeResult(m, MapRange(m, v, n, user).0, MapRange(m, v, n, user).1, v, n)
    decreases n
  {
    if n > 0 {
      MapPageFresh(m, v, user);
      var (q, first) := MapPage(m, v, user);
      if first {
        MapRangeFresh(q, Next(v), n - 1, user);
        var (r, all) := MapRange(q, Next(v), n - 1, user);
        RangeJoin(m, q, r, v, n, first, all);
      } else {
        RangeStops(m, q, v, n);
      }
    }
  }

  lemma RangeStops(m: Mem, q: Mem, v: nat, n: nat)
    requires Ok(m) && v < PAGES && PageResult(m, q, false, v)
    ensures RangeResult(m, q, false, v, n)
  {
  }

  lemma RangeJoin(m: Mem, q: Mem, r: Mem, v: nat, n: nat, first: bool, all: bool)
    requires Formed(m) && n > 0 && v < PAGES && first && PageResult(m, q, first, v)
    requires RangeResult(q, r, all, Next(v), n - 1)
    ensures RangeResult(m, r, all, v, n)
  {
    GrowsTrans(m.bits, q.bits, r.bits);
    OutsideTail(v, n);
    FreshJoin(m, q, r, v);
    if all { RangeStep(m, q, r, v, n); }
  }

  lemma OutsideTail(v: nat, n: nat)
    requires n > 0 && v < PAGES
    ensures forall u: nat | Outside(u, v, n) :: u != v && Outside(u, Next(v), n - 1)
  {
    forall u: nat | Outside(u, v, n) ensures u != v && Outside(u, Next(v), n - 1) {
      assert Nth(v, 0) == v;
      forall k: nat | k < n - 1 ensures u != Nth(Next(v), k) { assert Nth(v, k + 1) == Nth(Next(v), k); }
    }
  }

  /** One page and then the rest of the range. */
  lemma RangeStep(m: Mem, q: Mem, r: Mem, v: nat, n: nat)
    requires Formed(m) && Formed(q) && Formed(r) && n > 0 && v < PAGES
    requires MappedPage(m, q, v) && Grows(m.bits, q.bits) && Grows(q.bits, r.bits)
    requires forall u: nat | u != v :: Entry(q, u) == Entry(m, u)
    requires forall u: nat | Outside(u, Next(v), n - 1) :: Entry(r, u) == Entry(q, u)
    requires MappedRange(q, r, Next(v), n - 1)
    ensures MappedRange(m, r, v, n)
  {
    forall k: nat | k < n - 1 ensures Nth(Next(v), k) != v {
      assert MappedPage(q, r, Nth(Next(v), k));
    }
    assert Outside(v, Next(v), n - 1);
    forall k: nat | 0 < k < n ensures MappedPage(m, r, Nth(v, k)) && Nth(v, k) == Nth(Next(v), k - 1) {
      assert MappedPage(q, r, Nth(Next(v), k - 1));
    }
    forall j: nat, k: nat | j < k < n ensures Frame(Entry(r, Nth(v, j))) != Frame(Entry(r, Nth(v, k))) {
      assert MappedPage(q, r, Nth(Next(v), k - 1));
    }
  }

  // ------------------------------------------------------------------ the calls

  function Cursor(m: Mem, user: bool): (a: nat) {
    Align(if user then m.userHeap else m.heap)
  }

  function Advance(m: Mem, user: bool, cnt: nat): (r: Mem)
    ensures r.bits == m.bits && r.tables == m.tables
    ensures m.heap < TWO32 && m.userHeap < TWO32 ==> r.heap < TWO32 && r.userHeap < TWO32
  {
    var next := Wrap(Cursor(m, user) + cnt * PAGE);
    if user then m.(userHeap := next) else m.(heap := next)
  }

  /** PagingPrivate::map (arch/x86/pagingx86.cpp:399-452): the range starts at the aligned cursor,
      which moves past it even if the range cannot be mapped. */
  function Map(m: Mem, user: bool, cnt: nat): (r: (Mem, bool, nat))
    requires Shaped(m.bits) && TablesOk(m) && m.heap < TWO32 && m.userHeap < TWO32
    ensures Shaped(r.0.bits) && TablesOk(r.0) && r.2 < TWO32 && r.2 % PAGE == 0
  {
    AlignFacts(if user then m.userHeap else m.heap);
    var (q, ok) := MapRange(Advance(m, user, cnt), Cursor(m, user) / PAGE, cnt, user);
    (q, ok, Cursor(m, user))
  }

  lemma AlignFacts(a: nat)
    requires a < TWO32
    ensures Align(a) < TWO32 && Align(a) % PAGE == 0
  {
    if a % PAGE != 0 {
      var k := a / PAGE;
      assert a + (PAGE - a % PAGE) == PAGE * (k + 1);
      assert PAGE * (k + 1) <= TWO32;
      assert TWO32 % TWO32 == 0;
    }
  }

  /** A successful map: cnt consecutive pages from the address it returns, all free before and
      present now, on pairwise distinct frames none of which was marked; every other page's
      entry, and every marked frame, is as before. */
  lemma MapFresh(m: Mem, user: bool, cnt: nat)
    requires Ok(m) && SafeCount(m.bits.cnt) && m.heap < TWO32 && m.userHeap < TWO32
    ensures var (r, ok, at) := Map(m, user, cnt);
      && Ok(r) && Grows(m.bits, r.bits) && at < TWO32 && at % PAGE == 0
      && (forall u: nat | Outside(u, at / PAGE, cnt) :: Entry(r, u) == Entry(m, u))
      && FreshChanges(m, r)
      && (ok ==> MappedRange(m, r, at / PAGE, cnt))
      && (ok ==> forall k: nat | k < cnt :: FlagsOk(Entry(r, Nth(at / PAGE, k)), user))
      && r.heap < TWO32 && r.userHeap < TWO32
  {
    AlignFacts(if user then m.userHeap else m.heap);
    var n, v := Advance(m, user, cnt), Cursor(m, user) / PAGE;
    MapRangeFresh(n, v, cnt, user);
    var (r, ok) := MapRange(n, v, cnt, user);
    SameChanges(m, n, r);
    if ok {
      SameRange(m, n, r, v, cnt);
      RangeFlagged(n, r, v, cnt, user);
    }
  }

  /** Writable, and for user code or not as asked. */
  predicate FlagsOk(e: nat, user: bool) {
    (e / 2) % 2 == 1 && ((e / 4) % 2 == 1 <==> user)
  }

  predicate KeptOrFlagged(m: Mem, r: Mem, u: nat, user: bool)
    requires TablesOk(m) && TablesOk(r)
  {
    Entry(r, u) == Entry(m, u) || FlagsOk(Entry(r, u), user)
  }

  /** The page one turn fills, or that was free and is left, and every other page as before. */
  lemma TurnFlags(m: Mem, v: nat, user: bool, q: Mem)
    requires Ok(m) && v < PAGES && q == MapPage(m, v, user).0
    ensures Ok(q) && forall u: nat :: KeptOrFlagged(m, q, u, user)
  {
    ReserveKeeps(m, v);
    var (n, ok) := Reserve(m, v);
    StepHint(n.bits, FindOp);
    var (b, found) := FindUnset(n.bits);
    if ok && IsAvail(Entry(n, v)) && found.Some? {
      SetGrows(b, found.value);
      FilledFacts(Entry(n, v), found.value * PAGE, user);
      PutExact(n.(bits := Set(b, found.value)), v, Filled(Entry(n, v), found.value * PAGE, user));
    }
  }

  /** Every entry a map changes has the flags asked for. */
  lemma {:induction false} RangeFlags(m: Mem, v: nat, n: nat, user: bool, r: Mem)
    requires Ok(m) && v < PAGES && r == MapRange(m, v, n, user).0
    ensures TablesOk(r) && forall u: nat :: KeptOrFlagged(m, r, u, user)
    decreases n
  {
    if n > 0 {
      var (q, ok) := MapPage(m, v, user);
      TurnFlags(m, v, user, q);
      if ok {
        RangeFlags(q, Next(v), n - 1, user, r);
        forall u: nat ensures KeptOrFlagged(m, r, u, user) {
          assert KeptOrFlagged(q, r, u, user) && KeptOrFlagged(m, q, u, user);
        }
      }
    }
  }

  lemma RangeFlagged(m: Mem, r: Mem, v: nat, n: nat, user: bool)
    requires Ok(m) && v < PAGES && MapRange(m, v, n, user) == (r, true) && Formed(r) && MappedRange(m, r, v, n)
    ensures forall k: nat | k < n :: FlagsOk(Entry(r, Nth(v, k)), user)
  {
    RangeFlags(m, v, n, user, r);
    forall k: nat | k < n ensures FlagsOk(Entry(r, Nth(v, k)), user) {
      assert MappedPage(m, r, Nth(v, k)) && KeptOrFlagged(m, r, Nth(v, k), user);
    }
  }

  /** A page that was in use is in no range mapped later: ranges never overlap. */
  lemma NoOverlap(m: Mem, user: bool, cnt: nat, u: nat)
    requires Ok(m) && SafeCount(m.bits.cnt) && m.heap < TWO32 && m.userHeap < TWO32
    requires !IsAvail(Entry(m, u)) && Map(m, user, cnt).1
    ensures Outside(u, Map(m, user, cnt).2 / PAGE, cnt) && Entry(Map(m, user, cnt).0, u) == Entry(m, u)
  {
    MapFresh(m, user, cnt);
    var v := Map(m, user, cnt).2 / PAGE;
    forall k: nat | k < cnt ensures u != Nth(v, k) {
      assert MappedPage(m, Map(m, user, cnt).0, Nth(v, k));
    }
  }

  lemma SameChanges(m: Mem, n: Mem, r: Mem)
    requires Ok(m) && Ok(n) && Ok(r) && n.bits == m.bits && n.tables == m.tables && FreshChanges(n, r)
    ensures FreshChanges(m, r) && forall u: nat :: Entry(n, u) == Entry(m, u)
  {
    forall u: nat ensures KeptOrMapped(m, r, u) { assert KeptOrMapped(n, r, u); }
    forall u: nat, w: nat ensures FramesDiffer(m, r, u, w) { assert FramesDiffer(n, r, u, w); }
  }

  /** The cursors play no part in what is mapped. */
  lemma SameRange(m: Mem, n: Mem, r: Mem, v: nat, cnt: nat)
    requires Ok(m) && Ok(n) && Ok(r) && v < PAGES && n.bits == m.bits && n.tables == m.tables
    requires MappedRange(n, r, v, cnt)
    ensures MappedRange(m, r, v, cnt)
  {
    forall k: nat | k < cnt ensures MappedPage(m, r, Nth(v, k)) {
      assert MappedPage(n, r, Nth(v, k));
    }
  }

  /** identityMapFrame on page v (arch/x86/pagingx86.cpp:260-292): the frame is marked and mapped
      whether or not it was marked; the result says whether it was not. */
  function Identity(m: Mem, v: nat, adr: nat, user: bool): (r: (Mem, bool))
    requires Shaped(m.bits) && TablesOk(m) && v < PAGES
    ensures Shaped(r.0.bits) && TablesOk(r.0) && r.0.heap == m.heap && r.0.userHeap == m.userHeap
  {
    var (n, ok) := Reserve(m, v);
    if !ok then (n, false)
    else
      (Put(n.(bits := Set(n.bits, adr / PAGE)), v, Filled(Entry(n, v), adr, user)), !Marked(n.bits, adr / PAGE))
  }

  /** The page is mapped to its frame, which is marked; no other entry changes. */
  lemma IdentityKeeps(m: Mem, v: nat, adr: nat, user: bool)
    requires Ok(m) && v < PAGES
    ensures var n := Identity(m, v, adr, user).0;
      && Ok(n) && Grows(m.bits, n.bits)
      && (forall u: nat | u != v :: Entry(n, u) == Entry(m, u))
      && (if Reserve(m, v).1
          then Present(Entry(n, v)) && Frame(Entry(n, v)) == adr / PAGE && FlagsOk(Entry(n, v), user)
               && (adr / PAGE < m.bits.cnt ==> Marked(n.bits, adr / PAGE))
          else Entry(n, v) == Entry(m, v))
  {
    var (n, ok) := Reserve(m, v);
    ReserveKeeps(m, v);
    if ok {
      FilledFacts(Entry(n, v), adr, user);
      SetGrows(n.bits, adr / PAGE);
      PutExact(n.(bits := Set(n.bits, adr / PAGE)), v, Filled(Entry(n, v), adr, user));
    }
  }

  /** mapPhys (arch/x86/pagingx86.cpp:364-396): one page at the cursor, if it is free, onto the
      physical address given. */
  function MapPhys(m: Mem, phys: nat, user: bool): (r: (Mem, bool))
    requires Shaped(m.bits) && TablesOk(m) && m.heap < TWO32 && m.userHeap < TWO32
    ensures Shaped(r.0.bits) && TablesOk(r.0)
  {
    AlignFacts(if user then m.userHeap else m.heap);
    var v := Cursor(m, user) / PAGE;
    var (n, ok) := Reserve(Advance(m, user, 1), v);
    if !ok || !IsAvail(Entry(n, v)) then (n, false) else Identity(n, v, phys, user)
  }

  lemma MapPhysKeeps(m: Mem, phys: nat, user: bool)
    requires Ok(m) && m.heap < TWO32 && m.userHeap < TWO32
    ensures var n := MapPhys(m, phys, user).0;
      && Ok(n) && Grows(m.bits, n.bits) && n.heap < TWO32 && n.userHeap < TWO32
      && (forall u: nat | u != Cursor(m, user) / PAGE || !IsAvail(Entry(m, u)) :: Entry(n, u) == Entry(m, u))
  {
    AlignFacts(if user then m.userHeap else m.heap);
    var a, v := Advance(m, user, 1), Cursor(m, user) / PAGE;
    assert forall u: nat :: Entry(a, u) == Entry(m, u);
    ReserveKeeps(a, v);
    var (n, ok) := Reserve(a, v);
    if ok && IsAvail(Entry(n, v)) {
      IdentityKeeps(n, v, phys, user);
      GrowsTrans(m.bits, n.bits, Identity(n, v, phys, user).0.bits);
    }
  }

  // ------------------------------------------------------------------ answers

  /** When a page can get a table: it has one, or static memory has an address for it other than 0. */
  predicate TableFor(m: Mem, v: nat) {
    v / PER_TABLE in m.tables || Align(m.free) != 0
  }

  /** When one turn of map succeeds, and with which frame: the page is free and can get a table, and a
      frame is on offer; it gets the least one. q is the state after the table was reserved. */
  lemma MapPageIff(m: Mem, v: nat, user: bool, q: Mem)
    requires Ok(m) && SafeCount(m.bits.cnt) && v < PAGES && q == Reserve(m, v).0
    ensures var (n, ok) := MapPage(m, v, user);
      && TablesOk(n) && HintOk(q.bits)
      && (ok <==> TableFor(m, v) && IsAvail(Entry(m, v)) && exists f: nat :: Offers(q.bits.words, f))
      && (ok ==> Least(q.bits.words, 0, Some(Frame(Entry(n, v)))))
  {
    ReserveKeeps(m, v);
    if Reserve(m, v).1 && IsAvail(Entry(q, v)) { GiveIff(q, v, user); }
  }

  lemma GiveIff(q: Mem, v: nat, user: bool)
    requires Ok(q) && v / PER_TABLE in q.tables
    ensures var (n, ok) := GivePage(q, v, user);
      && (ok <==> exists f: nat :: Offers(q.bits.words, f))
      && (ok ==> Least(q.bits.words, 0, Some(Frame(Entry(n, v)))))
  {
    HintedEqualsFull(q.bits);
    var (b, found) := FindUnset(q.bits);
    if found.Some? {
      assert Offers(q.bits.words, found.value);
      FilledFacts(Entry(q, v), found.value * PAGE, user);
      PutExact(q.(bits := Set(b, found.value)), v, Filled(Entry(q, v), found.value * PAGE, user));
    }
  }

  /** map starts at the least page boundary at or above its cursor and moves that cursor past the range,
      whether or not the range can be mapped; the other cursor stays. */
  lemma MapCursors(m: Mem, user: bool, cnt: nat)
    requires Ok(m) && m.heap < TWO32 && m.userHeap < TWO32
    ensures var (r, ok, at) := Map(m, user, cnt);
      && at == Align(if user then m.userHeap else m.heap)
      && (if user then r.userHeap else r.heap) == Wrap(at + cnt * PAGE)
      && (if user then r.heap else r.userHeap) == (if user then m.heap else m.userHeap)
  {
  }

  lemma AlignExact(a: nat)
    requires a <= TWO32 - PAGE
    ensures Align(a) % PAGE == 0 && a <= Align(a) < a + PAGE
  {
    AlignFacts(a);
    var k := a / PAGE;
    assert a == PAGE * k + a % PAGE;
  }

  /** Static memory is handed out from the next page boundary on, without gaps. */
  lemma StaticExact(m: Mem, size: nat)
    requires Shaped(m.bits)
    ensures Static(m, size).1 == Align(m.free) && Static(m, size).0.free == Wrap(Align(m.free) + size)
  {
  }

  /** getPage answers the least frame on offer, and marks it; nothing when none is. */
  lemma GetFrameExact(m: Mem)
    requires Ok(m) && SafeCount(m.bits.cnt)
    ensures var (n, f) := GetFrame(m);
      && Least(m.bits.words, 0, f) && n.tables == m.tables && n.free == m.free
      && forall k: nat | k < m.bits.cnt :: Marked(n.bits, k) <==> Marked(m.bits, k) || f == Some(k)
  {
    HintedEqualsFull(m.bits);
    var (b, found) := FindUnset(m.bits);
    if found.Some? {
      SafeCountInside(m.bits);
      forall k: nat | k < m.bits.cnt ensures Marked(Set(b, found.value), k) <==> Marked(b, k) || found == Some(k) {
        SetExact(b, found.value, k);
      }
    }
  }

  /** mapPhys maps the page at its cursor, if that is free and has a table, onto the frame of the
      physical address and marks that frame; it moves the cursor by a page in any case. The answer is
      success only if the frame was not marked before. */
  lemma MapPhysExact(m: Mem, phys: nat, user: bool)
    requires Ok(m) && m.heap < TWO32 && m.userHeap < TWO32
    ensures var (n, ok) := MapPhys(m, phys, user);
      var at := Align(if user then m.userHeap else m.heap);
      var v := at / PAGE;
      var maps := TableFor(m, v) && IsAvail(Entry(m, v));
      && v < PAGES && Ok(n)
      && (if user then n.userHeap else n.heap) == Wrap(at + PAGE)
      && (if maps then Present(Entry(n, v)) && Frame(Entry(n, v)) == phys / PAGE && FlagsOk(Entry(n, v), user)
                       && (phys / PAGE < m.bits.cnt ==> Marked(n.bits, phys / PAGE))
          else Entry(n, v) == Entry(m, v))
      && (ok <==> maps && !Marked(Reserve(m, v).0.bits, phys / PAGE))
  {
    AlignFacts(if user then m.userHeap else m.heap);
    var a, v := Advance(m, user, 1), Cursor(m, user) / PAGE;
    var q, there := ReserveAlike(m, a, v);
    PhysTurn(q, v, phys, user, there, MapPhys(m, phys, user));
  }

  /** A reservation does not look at the cursors. */
  lemma ReserveAlike(m: Mem, a: Mem, v: nat) returns (q: Mem, there: bool)
    requires Ok(m) && Ok(a) && a == m.(heap := a.heap, userHeap := a.userHeap) && v < PAGES
    ensures (q, there) == Reserve(a, v) && Ok(q) && q.bits == Reserve(m, v).0.bits && q.bits.cnt == m.bits.cnt
    ensures (there <==> TableFor(m, v)) && Entry(q, v) == Entry(m, v)
  {
    ReserveKeeps(a, v);
    q, there := Reserve(a, v).0, Reserve(a, v).1;
    assert Entry(a, v) == Entry(m, v);
  }

  /** The end of mapPhys, on the state q with the table reserved. */
  lemma PhysTurn(q: Mem, v: nat, phys: nat, user: bool, there: bool, r: (Mem, bool))
    requires Ok(q) && v < PAGES && (there ==> v / PER_TABLE in q.tables)
    requires r == if there && IsAvail(Entry(q, v)) then Identity(q, v, phys, user) else (q, false)
    ensures var (n, ok) := r;
      var maps := there && IsAvail(Entry(q, v));
      && Ok(n) && n.heap == q.heap && n.userHeap == q.userHeap
      && (if maps then Present(Entry(n, v)) && Frame(Entry(n, v)) == phys / PAGE && FlagsOk(Entry(n, v), user)
                       && (phys / PAGE < q.bits.cnt ==> Marked(n.bits, phys / PAGE))
          else Entry(n, v) == Entry(q, v))
      && (ok <==> maps && !Marked(q.bits, phys / PAGE))
  {
    if there && IsAvail(Entry(q, v)) { IdentityKeeps(q, v, phys, user); }
  }

  /** getPage (arch/x86/pagingx86.cpp:341-352): the first free frame, now marked. */
  function GetFrame(m: Mem): (r: (Mem, Option<nat>))
    requires Shaped(m.bits)
    ensures Shaped(r.0.bits) && r.0.tables == m.tables
  {
    var (b, found) := FindUnset(m.bits);
    if found.None? then (m.(bits := b), None) else (m.(bits := Set(b, found.value)), found)
  }

  // ------------------------------------------------------------------ runs

  datatype Op =
    | MapOp(user: bool, cnt: nat)
    | FrameOp
    | IdentityOp(adr: nat)
    | PhysOp(phys: nat, user: bool)
    | StaticOp(size: nat)

  /** mem, the pages whose entry map wrote last with their frames, and the frames getPage gave. */
  datatype World = World(mem: Mem, filled: map<nat, nat>, taken: set<nat>)

  ghost predicate Sound(w: World) {
    && Ok(w.mem) && SafeCount(w.mem.bits.cnt) && w.mem.heap < TWO32 && w.mem.userHeap < TWO32
    && (forall v | v in w.filled :: Present(Entry(w.mem, v)) && Frame(Entry(w.mem, v)) == w.filled[v])
    && (forall v | v in w.filled :: Marked(w.mem.bits, w.filled[v]) && w.filled[v] !in w.taken)
    && (forall f | f in w.taken :: Marked(w.mem.bits, f))
    && (forall u, v | u in w.filled && v in w.filled && u != v :: w.filled[u] != w.filled[v])
  }

  /** The pages of a range. */
  function Range(v: nat, n: nat): (r: set<nat>)
    requires v < PAGES
    ensures forall u: nat :: u in r <==> !Outside(u, v, n)
  {
    set k | 0 <= k < n :: Nth(v, k)
  }

  /** The pages of the set whose entry changed, with their new frames. */
  function Changed(m: Mem, r: Mem, vs: set<nat>): (c: map<nat, nat>)
    requires TablesOk(m) && TablesOk(r)
  {
    map v | v in vs && Entry(r, v) != Entry(m, v) :: Frame(Entry(r, v))
  }

  ghost function Step(w: World, op: Op): (r: World)
    requires Sound(w)
  {
    match op
    case MapOp(user, cnt) =>
      var (m, _, at) := Map(w.mem, user, cnt);
      World(m, w.filled + Changed(w.mem, m, Range(at / PAGE, cnt)), w.taken)
    case FrameOp =>
      var (m, f) := GetFrame(w.mem);
      World(m, w.filled, if f.Some? then w.taken + {f.value} else w.taken)
    case IdentityOp(adr) =>
      World(Identity(w.mem, Wrap(adr) / PAGE, Wrap(adr), false).0, w.filled - {Wrap(adr) / PAGE}, w.taken)
    case PhysOp(phys, user) => World(MapPhys(w.mem, phys, user).0, w.filled, w.taken)
    case StaticOp(size) => World(Static(w.mem, size).0, w.filled, w.taken)
  }

  /** What a step, or a run, from w to r leaves of w: marks stay, pages in use stay in use, pages
      counted as filled in both keep their frame, and a page newly filled was free and has a frame
      that w had not marked, be it for map, getPage, an identity mapping or static memory. */
  ghost predicate Follows(w: World, r: World)
    requires Ok(w.mem) && Ok(r.mem)
  {
    && Grows(w.mem.bits, r.mem.bits)
    && (forall v: nat | !IsAvail(Entry(w.mem, v)) :: !IsAvail(Entry(r.mem, v)))
    && (forall v | v in r.filled && v in w.filled :: r.filled[v] == w.filled[v])
    && (forall v | v in r.filled && v !in w.filled ::
          IsAvail(Entry(w.mem, v)) && !Marked(w.mem.bits, r.filled[v]))
  }

  lemma FollowsTrans(w: World, q: World, r: World)
    requires Sound(w) && Sound(q) && Sound(r) && Follows(w, q) && Follows(q, r)
    ensures Follows(w, r)
  {
    GrowsTrans(w.mem.bits, q.mem.bits, r.mem.bits);
  }

  /** A step that marks more frames, keeps the pages still counted as filled, and counts no new
      ones. */
  lemma QuietSound(w: World, r: World)
    requires Sound(w) && Ok(r.mem) && Grows(w.mem.bits, r.mem.bits) && r.mem.heap < TWO32 && r.mem.userHeap < TWO32
    requires r.taken == w.taken && r.filled.Keys <= w.filled.Keys
    requires forall v | v in r.filled :: r.filled[v] == w.filled[v] && Entry(r.mem, v) == Entry(w.mem, v)
    requires forall v: nat | !IsAvail(Entry(w.mem, v)) :: !IsAvail(Entry(r.mem, v))
    ensures Sound(r) && Follows(w, r)
  {
  }

  lemma MapSound(w: World, user: bool, cnt: nat)
    requires Sound(w)
    ensures Sound(Step(w, MapOp(user, cnt)))
  {
    MapFresh(w.mem, user, cnt);
    var (m, _, at) := Map(w.mem, user, cnt);
    FilledSound(w, m, Range(at / PAGE, cnt));
  }

  lemma FilledSound(w: World, m: Mem, vs: set<nat>)
    requires Sound(w) && Ok(m) && Grows(w.mem.bits, m.bits) && m.heap < TWO32 && m.userHeap < TWO32
    requires FreshChanges(w.mem, m) && forall u: nat | u !in vs :: Entry(m, u) == Entry(w.mem, u)
    ensures Sound(World(m, w.filled + Changed(w.mem, m, vs), w.taken))
  {
    var r := World(m, w.filled + Changed(w.mem, m, vs), w.taken);
    forall v | v in r.filled
      ensures Present(Entry(m, v)) && Frame(Entry(m, v)) == r.filled[v] && Marked(m.bits, r.filled[v])
      ensures v in w.filled ==> Entry(m, v) == Entry(w.mem, v) && r.filled[v] == w.filled[v]
      ensures v !in w.filled ==> MappedPage(w.mem, m, v) && Entry(m, v) != Entry(w.mem, v)
    {
      assert KeptOrMapped(w.mem, m, v);
    }
    forall u, v | u in r.filled && v in r.filled && u != v ensures r.filled[u] != r.filled[v] {
      assert FramesDiffer(w.mem, m, u, v);
    }
  }

  lemma MapFollows(w: World, user: bool, cnt: nat)
    requires Sound(w)
    ensures Ok(Step(w, MapOp(user, cnt)).mem) && Follows(w, Step(w, MapOp(user, cnt)))
  {
    MapFresh(w.mem, user, cnt);
    var r := Step(w, MapOp(user, cnt));
    forall v: nat
      ensures !IsAvail(Entry(w.mem, v)) ==> Entry(r.mem, v) == Entry(w.mem, v)
      ensures v in r.filled && Entry(r.mem, v) != Entry(w.mem, v) ==> MappedPage(w.mem, r.mem, v)
    {
      assert KeptOrMapped(w.mem, r.mem, v);
    }
  }

  lemma FrameSound(w: World)
    requires Sound(w)
    ensures Sound(Step(w, FrameOp))
    ensures var f := GetFrame(w.mem).1;
      f.Some? ==> !Marked(w.mem.bits, f.value) && f.value !in w.taken && f.value !in w.filled.Values
  {
    var b := w.mem.bits;
    StepHint(b, FindOp);
    var (c, found) := FindUnset(b);
    if found.Some? {
      HintedEqualsFull(b);
      SafeCountInside(b);
      SetGrows(c, found.value);
    }
  }

  lemma StepSound(w: World, op: Op)
    requires Sound(w)
    ensures Sound(Step(w, op)) && Follows(w, Step(w, op))
  {
    match op
    case MapOp(user, cnt) =>
      MapSound(w, user, cnt);
      MapFollows(w, user, cnt);
    case FrameOp => FrameSound(w);
    case IdentityOp(adr) => IdentitySound(w, adr);
    case PhysOp(phys, user) => PhysSound(w, phys, user);
    case StaticOp(size) =>
      StaticGrows(w.mem, size);
      QuietSound(w, World(Static(w.mem, size).0, w.filled, w.taken));
  }

  lemma IdentitySound(w: World, adr: nat)
    requires Sound(w)
    ensures Sound(Step(w, IdentityOp(adr))) && Follows(w, Step(w, IdentityOp(adr)))
  {
    var v := Wrap(adr) / PAGE;
    IdentityKeeps(w.mem, v, Wrap(adr), false);
    QuietSound(w, World(Identity(w.mem, v, Wrap(adr), false).0, w.filled - {v}, w.taken));
  }

  lemma PhysSound(w: World, phys: nat, user: bool)
    requires Sound(w)
    ensures Sound(Step(w, PhysOp(phys, user))) && Follows(w, Step(w, PhysOp(phys, user)))
  {
    MapPhysKeeps(w.mem, phys, user);
    QuietSound(w, World(MapPhys(w.mem, phys, user).0, w.filled, w.taken));
  }

  ghost predicate Run(w: World, ops: seq<Op>, r: World)
    decreases |ops|
  {
    if ops == [] then r == w else Sound(w) && Run(Step(w, ops[0]), ops[1..], r)
  }

  /** On every run of map, getPage, identity mappings, mapPhys and static allocation, pages filled
      by map never share a frame, keep the frame they got, and never share one with getPage; and no
      page filled during the run got a frame that was marked when it began. */
  lemma {:induction false} RunSound(w: World, ops: seq<Op>, r: World)
    requires Sound(w) && Run(w, ops, r)
    ensures Sound(r) && Follows(w, r)
    ensures forall u, v | u in r.filled && v in r.filled && u != v ::
      Frame(Entry(r.mem, u)) != Frame(Entry(r.mem, v))
    decreases |ops|
  {
    if ops != [] {
      StepSound(w, ops[0]);
      RunSound(Step(w, ops[0]), ops[1..], r);
      FollowsTrans(w, Step(w, ops[0]), r);
    }
  }
}
