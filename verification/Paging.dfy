/** The paging object (arch/x86/pagingx86.cpp, src/paging.cpp): cursors, bitmap and page entries
    updated in place, each method tied to the functions of PagingModel. */
module Paging {
  import opened Basics
  import opened Bits
  import opened PagingModel

  class PagingPrivate {
    var data: Bitmap
    var tables: map<nat, seq<nat>>
    var heap: nat      // __heap_address
    var userHeap: nat  // __user_heap_address
    var free: nat      // __free_page_address

    ghost function Abs(): (m: Mem)
      reads this
    {
      Mem(data, tables, heap, userHeap, free)
    }

    ghost predicate Valid()
      reads this
    {
      Ok(Abs()) && heap < TWO32 && userHeap < TWO32 && free < TWO32
    }

    constructor (bits: Bitmap, freeAddress: nat)
      requires HintOk(bits) && freeAddress < TWO32
      ensures Valid() && Abs() == Mem(bits, map[], 0x3000_0000, 0xD000_0000, freeAddress)
    {
      data, tables, heap, userHeap, free := bits, map[], 0x3000_0000, 0xD000_0000, freeAddress;
    }

    /** The cursor loops of map and mapPhys (arch/x86/pagingx86.cpp:405-407): byte by byte up to a
        page boundary. */
    static method AlignUp(start: nat) returns (a: nat)
      requires start < TWO32
      ensures a == Align(start)
    {
      a := start;
      while a % PAGE != 0
        invariant a < TWO32 && Align(a) == Align(start)
        decreases if a % PAGE == 0 then 0 else PAGE - a % PAGE
      {
        AlignStep(a);
        a := Wrap(a + 1);
      }
    }

    /** incFreePageAddress (arch/x86/pagingx86.cpp:489-504): marks every frame it passes. */
    method IncFreePageAddress(size: nat)
      requires Valid() && size < TWO32
      modifies `data, `free
      ensures Valid() && free == Wrap(old(free) + size)
      ensures data == SetRange(old(data), old(free) / PAGE, free / PAGE)
    {
      ghost var b := data;
      var i, target := free / PAGE, Wrap(free + size) / PAGE;
      while i <= target
        invariant free == old(free) && free / PAGE <= i && Valid()
        invariant SetRange(data, i, target) == SetRange(b, free / PAGE, target)
        decreases target - i
      {
        SetGrows(data, i);
        SetAgain(data, i);
        if !Marked(data, i) {
          data := Bits.Set(data, i);
        }
        i := i + 1;
      }
      free := Wrap(free + size);
    }

    /** Paging::allocStatic (src/paging.cpp:96-114). */
    method AllocStatic(size: nat) returns (at: nat)
      requires Valid() && size < TWO32
      modifies `data, `free
      ensures Valid() && (Abs(), at) == Static(old(Abs()), size)
    {
      AlignFacts(free);
      SetGrows(data, free / PAGE);
      if free % PAGE != 0 {
        data := Bits.Set(data, free / PAGE);
        free := AlignUp(free);
      }
      at := free;
      SetGrows(data, free / PAGE);
      data := Bits.Set(data, free / PAGE);
      IncFreePageAddress(size);
    }

    /** PageDir::getPage with reservation. */
    method GetPage(v: nat) returns (ok: bool)
      requires Valid() && v < PAGES
      modifies `data, `free, `tables
      ensures Valid() && (Abs(), ok) == Reserve(old(Abs()), v)
    {
      ReserveKeeps(Abs(), v);
      if v / PER_TABLE in tables { return true; }
      var at := AllocStatic(PAGE);
      if at == 0 { return false; }
      tables := tables[v / PER_TABLE := EmptyTable()];
      ok := true;
    }

    /** mapFrame (arch/x86/pagingx86.cpp:294-338): a page in use is left as it is, with success; a
        free one gets the first free frame. */
    method MapFrame(v: nat, user: bool) returns (ok: bool)
      requires Valid() && v / PER_TABLE in tables
      modifies `data, `tables
      ensures Valid()
      ensures !IsAvail(Entry(old(Abs()), v)) ==> ok && Abs() == old(Abs())
      ensures IsAvail(Entry(old(Abs()), v)) ==> (Abs(), ok) == GivePage(old(Abs()), v, user)
    {
      if !IsAvail(tables[v / PER_TABLE][v % PER_TABLE]) { return true; }
      ghost var m := Abs();
      StepHint(data, FindOp);
      var (b, found) := FindUnset(data);
      if found.None? {
        data := b;
        return false;
      }
      SetGrows(b, found.value);
      data := Bits.Set(b, found.value);
      var table: seq<nat> := tables[v / PER_TABLE];
      var entry := SetPresent(table[v % PER_TABLE], true);
      entry := SetRw(entry, true);
      entry := SetUserspace(entry, user);
      entry := SetAddress(entry, found.value * PAGE);
      var changed: seq<nat> := table[v % PER_TABLE := entry];
      tables := tables[v / PER_TABLE := changed];
      ok := true;
    }

    /** The page loop of map (arch/x86/pagingx86.cpp:423-445). */
    method MapPages(start: nat, cnt: nat, user: bool) returns (ok: bool)
      requires Valid() && start < PAGES
      modifies `data, `free, `tables
      ensures Valid() && (Abs(), ok) == MapRange(old(Abs()), start, cnt, user)
    {
      ok := MapLoop(start, cnt, user, MapRange(Abs(), start, cnt, user));
    }

    /** The loop; goal is what it comes to. */
    method MapLoop(start: nat, cnt: nat, user: bool, ghost goal: (Mem, bool)) returns (ok: bool)
      requires Valid() && start < PAGES && goal == MapRange(Abs(), start, cnt, user)
      modifies `data, `free, `tables
      ensures Valid() && Abs() == goal.0 && ok == goal.1
    {
      var v: nat, left: nat := start, cnt;
      while left > 0
        invariant Valid() && v < PAGES
        invariant goal == MapRange(Abs(), v, left, user)
        decreases left
      {
        ok, v, left := MapTurn(v, left, user, goal);
        if !ok { return; }
      }
      ok := true;
    }

    method MapTurn(v: nat, left: nat, user: bool, ghost goal: (Mem, bool)) returns (ok: bool, w: nat, rest: nat)
      requires Valid() && v < PAGES && left > 0 && goal == MapRange(Abs(), v, left, user)
      modifies `data, `free, `tables
      ensures Valid() && w < PAGES && rest < left
      ensures ok ==> goal == MapRange(Abs(), w, rest, user)
      ensures !ok ==> goal == (Abs(), false)
    {
      ghost var m := Abs();
      ok := MapOne(v, user);
      w, rest := Next(v), left - 1;
      RangeUnfold(m, v, left, user, Abs(), ok, w, rest);
    }

    /** map (arch/x86/pagingx86.cpp:399-452): move the cursor past cnt pages, then map them one by
        one. */
    method Map(user: bool, cnt: nat) returns (ok: bool, virt: nat)
      requires Valid()
      modifies this
      ensures Valid() && (Abs(), ok, virt) == PagingModel.Map(old(Abs()), user, cnt)
    {
      AlignFacts(if user then userHeap else heap);
      virt := AlignUp(if user then userHeap else heap);
      MoveCursor(user, virt, cnt);
      ok := MapPages(virt / PAGE, cnt, user);
    }

    method MoveCursor(user: bool, at: nat, cnt: nat)
      requires Valid() && at == Cursor(Abs(), user) && at < TWO32
      modifies `heap, `userHeap
      ensures Valid() && Abs() == Advance(old(Abs()), user, cnt)
    {
      var next := Wrap(at + cnt * PAGE);
      if user { userHeap := next; } else { heap := next; }
    }

    method MapOne(v: nat, user: bool) returns (ok: bool)
      requires Valid() && v < PAGES
      modifies `data, `free, `tables
      ensures Valid() && (Abs(), ok) == MapPage(old(Abs()), v, user)
    {
      ReserveKeeps(Abs(), v);
      var there := GetPage(v);
      if !there { return false; }
      if !IsAvail(tables[v / PER_TABLE][v % PER_TABLE]) { return false; }
      ok := MapFrame(v, user);
    }
  }

  lemma RangeUnfold(m: Mem, v: nat, n: nat, user: bool, q: Mem, ok: bool, w: nat, rest: nat)
    requires Formed(m) && v < PAGES && n > 0 && MapPage(m, v, user) == (q, ok) && w == Next(v) && rest == n - 1
    ensures ok ==> MapRange(m, v, n, user) == MapRange(q, w, rest, user)
    ensures !ok ==> MapRange(m, v, n, user) == (q, false)
  {
  }

  lemma AlignStep(a: nat)
    requires a < TWO32 && a % PAGE != 0
    ensures Align(Wrap(a + 1)) == Align(a)
    ensures Wrap(a + 1) % PAGE != 0 ==> Wrap(a + 1) % PAGE == a % PAGE + 1
  {
    var k, x := a / PAGE, a % PAGE;
    assert a == PAGE * k + x;
    if x + 1 == PAGE {
      assert a + 1 == PAGE * (k + 1);
      High(k + 1, 0);
    } else {
      High(k, x + 1);
      assert a + 1 < TWO32;
    }
  }

  /** Setting a bit that is set changes nothing. */
  lemma SetAgain(b: Bitmap, i: nat)
    requires Shaped(b)
    ensures Marked(b, i) ==> Bits.Set(b, i) == b
  {
    if Marked(b, i) {
      var w := b.words[i / WORD];
      assert w[i % WORD := true] == w;
      assert b.words[i / WORD := w] == b.words;
    }
  }
}
