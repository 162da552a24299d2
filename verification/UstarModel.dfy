/** The ustar reader (src/fs/ustar.cpp) on values: the walk over the headers of an archive, as the
    code takes it with its 32-bit block numbers, against the archive as the format defines it. */
module UstarModel {
  import opened Basics
  import opened Bytes
  import opened Device

  const MAGIC := 257
  const SIZE_FIELD := 124

  // ------------------------------------------------------------------ headers

  /** The five bytes "ustar". */
  predicate IsUstar(b: Block) {
    b[MAGIC..MAGIC + 5] == [0x75, 0x73, 0x74, 0x61, 0x72]
  }

  predicate Digit(c: Byte) {
    0x30 <= c <= 0x39
  }

  function DigitValue(c: Byte): (v: nat)
    requires Digit(c)
    ensures v <= 9
  {
    var x: int := c;
    x - 0x30
  }

  /** Length of the run of digits that s starts with. */
  function DigitRun(s: seq<Byte>): (n: nat)
    ensures n <= |s| && (forall i | 0 <= i < n :: Digit(s[i])) && (n < |s| ==> !Digit(s[n]))
  {
    if s == [] || !Digit(s[0]) then 0 else 1 + DigitRun(s[1..])
  }

  lemma {:induction false} RunLength(s: seq<Byte>, n: nat)
    requires n <= |s| && (forall i | 0 <= i < n :: Digit(s[i])) && (n < |s| ==> !Digit(s[n]))
    ensures DigitRun(s) == n
  {
    if n > 0 { RunLength(s[1..], n - 1); }
  }

  /** Value of digits in base 8, most significant first; 8 and 9 are taken as digits too. */
  function Octal(s: seq<Byte>): (v: nat)
    requires forall i | 0 <= i < |s| :: Digit(s[i])
  {
    if s == [] then 0 else 8 * Octal(s[..|s| - 1]) + DigitValue(s[|s| - 1])
  }

  function Pow8(n: nat): (r: nat)
    ensures r > 0
  {
    if n == 0 then 1 else 8 * Pow8(n - 1)
  }

  /** A field of n characters never overflows 64 bits: its value is less than two times 8^n. */
  lemma {:induction false} OctalBound(s: seq<Byte>)
    requires forall i | 0 <= i < |s| :: Digit(s[i])
    ensures 7 * Octal(s) <= 9 * (Pow8(|s|) - 1)
  {
    if s != [] {
      OctalBound(s[..|s| - 1]);
    }
  }

  /** The size field of a header: the octal number up to the first other character. */
  function SizeOf(b: Block): (v: nat) {
    var field := b[SIZE_FIELD..SIZE_FIELD + 12];
    Octal(field[..DigitRun(field)])
  }

  lemma SizeBound(b: Block)
    ensures SizeOf(b) < 0x20_0000_0000
  {
    var field := b[SIZE_FIELD..SIZE_FIELD + 12];
    OctalBound(field[..DigitRun(field)]);
    Pow8Grows(DigitRun(field), 12);
    Pow8Twelve();
  }

  lemma {:induction false} Pow8Grows(m: nat, n: nat)
    requires m <= n
    ensures Pow8(m) <= Pow8(n)
    decreases n - m
  {
    if m < n { Pow8Grows(m, n - 1); }
  }

  lemma Pow8Twelve()
    ensures Pow8(12) == 0x10_0000_0000
  {
    assert Pow8(3) == 512;
    assert Pow8(6) == 512 * Pow8(3) by { assert Pow8(4) == 8 * Pow8(3); assert Pow8(5) == 8 * Pow8(4); }
    assert Pow8(9) == 512 * Pow8(6) by { assert Pow8(7) == 8 * Pow8(6); assert Pow8(8) == 8 * Pow8(7); }
    assert Pow8(12) == 512 * Pow8(9) by { assert Pow8(10) == 8 * Pow8(9); assert Pow8(11) == 8 * Pow8(10); }
  }

  /** The name of an entry: the bytes of its header up to the first NUL. */
  function NameOf(b: seq<Byte>): (name: seq<Byte>)
    ensures |name| <= |b| && name == b[..|name|] && (forall i | 0 <= i < |name| :: b[i] != 0)
    ensures |name| < |b| ==> b[|name|] == 0
  {
    if b == [] || b[0] == 0 then [] else [b[0]] + NameOf(b[1..])
  }

  /** Blocks that n bytes take up. */
  function BlocksOf(n: nat): (k: nat)
    ensures BS * k >= n && (k > 0 ==> BS * (k - 1) < n)
  {
    (n + BS - 1) / BS
  }

  // ------------------------------------------------------------------ the archive

  /** The header behind the entry at h. */
  function After(d: seq<Block>, h: nat): (r: nat)
    requires h < |d|
    ensures r > h
  {
    h + 1 + BlocksOf(SizeOf(d[h]))
  }

  /** The headers of the archive from block h on: each behind the contents of the one before, up
      to the first block that is no header or the end. */
  function Headers(d: seq<Block>, h: nat): (r: seq<nat>)
    decreases |d| - h
  {
    if h >= |d| || !IsUstar(d[h]) then [] else [h] + Headers(d, After(d, h))
  }

  /** Header numbers rise strictly. */
  lemma {:induction false} HeadersRise(d: seq<Block>, h: nat, i: nat)
    requires i < |Headers(d, h)|
    ensures h <= Headers(d, h)[i] < |d| && IsUstar(d[Headers(d, h)[i]])
    ensures i + 1 < |Headers(d, h)| ==> Headers(d, h)[i] < Headers(d, h)[i + 1] == After(d, Headers(d, h)[i])
    decreases i
  {
    if i > 0 {
      HeadersRise(d, After(d, h), i - 1);
    }
  }

  // ------------------------------------------------------------------ the iterator

  /** Ustar::Iterator without its scratch buffer. */
  datatype Iter = Iter(ok: bool, block: nat, index: nat, dataBlock: nat, dataIndex: nat, size: nat, data: Block)

  /** The end of getCurrent: check the magic and read the size. */
  function Accept(it: Iter): (r: (Iter, bool)) {
    var o := it.(dataBlock := Wrap(it.block + 1));
    if !IsUstar(it.data) then (o, false) else (o.(size := SizeOf(it.data)), true)
  }

  /** getCurrent (src/fs/ustar.cpp:160-194). The device ends where the wrapped position of the
      index does not lie below its size. */
  function GetCurrent(d: seq<Block>, it: Iter): (r: (Iter, bool)) {
    if Slot(it.index) >= |d| then (it, false)
    else if it.block == it.index then Accept(it)
    else
      var next := Wrap(it.block + BlocksOf(it.size) + 1);
      if next < it.index then (it, false)
      else if Slot(next) >= |d| then (it.(index := next), false)
      else Accept(it.(index := next, data := d[Slot(next)], block := next))
  }

  /** list at the start of the device (src/fs/ustar.cpp:141-158). */
  function List(d: seq<Block>): (it: Iter) {
    var it := Iter(false, 0, 0, 0, 0, 0, Zeros());
    if |d| == 0 then it
    else
      var (r, ok) := GetCurrent(d, it.(data := d[0]));
      r.(ok := ok)
  }

  function Next(d: seq<Block>, it: Iter): (r: Iter) {
    var (n, ok) := GetCurrent(d, it.(index := Wrap(it.index + 1)));
    n.(ok := ok, dataIndex := 0)
  }

  /** The iterator stands on a header it has read. */
  predicate Standing(d: seq<Block>, it: Iter) {
    && it.ok && it.index == it.block < TWO32 && Slot(it.block) < |d|
    && it.data == d[Slot(it.block)] && IsUstar(it.data) && it.size == SizeOf(it.data)
    && it.dataBlock == Wrap(it.block + 1) && it.dataIndex == 0
  }

  /** Block numbers rise strictly, also where positions wrap, short of the very last number. */
  lemma NextRises(d: seq<Block>, it: Iter)
    requires Standing(d, it) && Next(d, it).ok && it.block + 1 < TWO32
    ensures Standing(d, Next(d, it)) && it.block < Next(d, it).block < TWO32
  {
  }

  // ------------------------------------------------------------------ the walk is the archive's

  /** The iterator stands on header h of a device below 4 GiB. */
  predicate At(d: seq<Block>, it: Iter, h: nat) {
    h < |d| < MAX_BLOCKS && Standing(d, it) && it.block == h
  }

  /** next is right on an entry that reaches no further than 4 GiB: it goes to the next header, or
      reports the end of the archive. */
  lemma NextExact(d: seq<Block>, it: Iter, h: nat)
    requires At(d, it, h) && After(d, h) < MAX_BLOCKS
    ensures Next(d, it).ok <==> After(d, h) < |d| && IsUstar(d[After(d, h)])
    ensures Next(d, it).ok ==> At(d, Next(d, it), After(d, h))
  {
  }

  /** Exactly when next ends the walk or moves on as the format says: an entry that reaches 4 GiB
      is taken to end where its wrapped position falls, which is wrong if a header is there. */
  lemma NextExactIff(d: seq<Block>, it: Iter, h: nat)
    requires At(d, it, h)
    ensures (Next(d, it).ok <==> After(d, h) < |d| && IsUstar(d[After(d, h)]))
      <==> After(d, h) < MAX_BLOCKS || h + 1 == |d| || Slot(After(d, h)) >= |d| || !IsUstar(d[Slot(After(d, h))])
  {
    SizeBound(d[h]);
    assert After(d, h) < TWO32;
    if After(d, h) < MAX_BLOCKS { NextExact(d, it, h); }
  }

  /** A header of size 8^11 - 1, the largest the field holds in octal, followed by any header. */
  function HugeHeader(): (b: Block) {
    var b := seq(BS, i => if SIZE_FIELD <= i < SIZE_FIELD + 11 then 0x37 else 0);
    Splice(b, MAGIC, [0x75, 0x73, 0x74, 0x61, 0x72])
  }

  lemma {:induction false} Sevens(s: seq<Byte>)
    requires forall i | 0 <= i < |s| :: s[i] == 0x37
    ensures Octal(s) == Pow8(|s|) - 1
  {
    if s != [] { Sevens(s[..|s| - 1]); }
  }

  lemma HugeSize()
    ensures IsUstar(HugeHeader()) && SizeOf(HugeHeader()) == 0x1_FFFF_FFFF
  {
    var field := HugeHeader()[SIZE_FIELD..SIZE_FIELD + 12];
    assert forall i | 0 <= i < 12 :: field[i] == HugeHeader()[SIZE_FIELD + i];
    RunLength(field, 11);
    Sevens(field[..11]);
    Pow8Twelve();
    assert Pow8(12) == 8 * Pow8(11);
  }

  /** The size wraps: next goes from block 0 to block 2^24 + 1, which it reads at block 1, though
      the archive ends with the entry at block 0. */
  lemma WrapHazard()
    ensures var d := [HugeHeader(), HugeHeader()];
      Headers(d, 0) == [0] && Next(d, List(d)).ok && Next(d, List(d)).block == 0x100_0001
  {
    HugeSize();
    var d := [HugeHeader(), HugeHeader()];
    assert Slot(0x100_0001) == 1;
    assert BlocksOf(0x1_FFFF_FFFF) == 0x100_0000;
    assert After(d, 0) == 0x100_0001;
    ListExact(d);
  }

  /** Every entry reached from h stays below 4 GiB. */
  predicate Bounded(d: seq<Block>, h: nat)
    decreases |d| - h
  {
    |d| < MAX_BLOCKS
    && (h < |d| && IsUstar(d[h]) ==> After(d, h) < MAX_BLOCKS && Bounded(d, After(d, h)))
  }

  /** The blocks that list and next visit from it on. */
  function Trail(d: seq<Block>, it: Iter): (r: seq<nat>)
    requires it.ok ==> At(d, it, it.block) && Bounded(d, it.block)
    decreases if it.ok then |d| - it.block else 0, it.ok
  {
    if !it.ok then []
    else
      NextExact(d, it, it.block);
      [it.block] + Trail(d, Next(d, it))
  }

  lemma ListExact(d: seq<Block>)
    requires |d| < MAX_BLOCKS
    ensures List(d).ok <==> |d| > 0 && IsUstar(d[0])
    ensures List(d).ok ==> At(d, List(d), 0)
  {
  }

  lemma {:induction false} TrailExact(d: seq<Block>, it: Iter)
    requires it.ok && At(d, it, it.block) && Bounded(d, it.block)
    ensures Trail(d, it) == Headers(d, it.block)
    decreases |d| - it.block
  {
    NextExact(d, it, it.block);
    if Next(d, it).ok { TrailExact(d, Next(d, it)); }
  }

  /** list and next visit exactly the headers of the archive. */
  lemma WalkExact(d: seq<Block>)
    requires Bounded(d, 0)
    ensures List(d).ok ==> At(d, List(d), 0)
    ensures Trail(d, List(d)) == Headers(d, 0)
  {
    ListExact(d);
    if List(d).ok { TrailExact(d, List(d)); }
  }

  // ------------------------------------------------------------------ contents

  /** The image as one string of bytes. */
  function Image(d: seq<Block>): (s: seq<Byte>)
    ensures |s| == BS * |d|
  {
    if d == [] then [] else Image(d[..|d| - 1]) + d[|d| - 1]
  }

  lemma {:induction false} ImageAt(d: seq<Block>, k: nat)
    requires k < |d|
    ensures BS * k + BS <= |Image(d)| && Image(d)[BS * k..BS * k + BS] == d[k]
    decreases |d|
  {
    var front := Image(d[..|d| - 1]);
    if k < |d| - 1 {
      ImageAt(d[..|d| - 1], k);
      assert Image(d)[BS * k..BS * k + BS] == front[BS * k..BS * k + BS];
    }
  }

  /** How many bytes of the entry at h the device holds. */
  function Available(d: seq<Block>, h: nat, size: nat): (n: nat)
    requires h < |d|
    ensures n <= size && BS * (h + 1) + n <= BS * |d|
  {
    var room := BS * (|d| - h - 1);
    if size <= room then size else room
  }

  /** What read returns: the next bytes of the entry, at most cnt. */
  function ReadSpec(d: seq<Block>, it: Iter, cnt: nat): (r: (Iter, seq<Byte>))
    requires it.block < |d| && it.dataIndex <= Available(d, it.block, it.size)
    ensures r.0.block == it.block && r.0.size == it.size && r.0.dataIndex <= Available(d, it.block, it.size)
  {
    var n := Min(cnt, Available(d, it.block, it.size) - it.dataIndex);
    var at := BS * (it.block + 1) + it.dataIndex;
    (it.(dataIndex := it.dataIndex + n), Image(d)[at..at + n])
  }

  function Reads(d: seq<Block>, it: Iter, cnts: seq<nat>): (r: seq<Byte>)
    requires it.block < |d| && it.dataIndex <= Available(d, it.block, it.size)
    decreases |cnts|
  {
    if cnts == [] then []
    else
      var (n, got) := ReadSpec(d, it, cnts[0]);
      got + Reads(d, n, cnts[1..])
  }

  lemma ReadsUnfold(d: seq<Block>, it: Iter, cnts: seq<nat>, next: Iter, got: seq<Byte>, rest: seq<Byte>)
    requires it.block < |d| && it.dataIndex <= Available(d, it.block, it.size) && cnts != []
    requires ReadSpec(d, it, cnts[0]).0 == next && ReadSpec(d, it, cnts[0]).1 == got
    requires Reads(d, next, cnts[1..]) == rest
    ensures Reads(d, it, cnts) == got + rest
  {
  }

  /** Any sequence of reads yields one contiguous slice of the image: from where the entry stands,
      as many bytes as were asked for or are left. */
  lemma {:induction false} ReadsContiguous(d: seq<Block>, it: Iter, cnts: seq<nat>)
    requires it.block < |d| && it.dataIndex <= Available(d, it.block, it.size)
    ensures var at := BS * (it.block + 1) + it.dataIndex;
      var n := Min(Sum(cnts), Available(d, it.block, it.size) - it.dataIndex);
      Reads(d, it, cnts) == Image(d)[at..at + n]
    decreases |cnts|
  {
    if cnts != [] {
      var (next, got) := ReadSpec(d, it, cnts[0]);
      ReadsContiguous(d, next, cnts[1..]);
      var image, at := Image(d), BS * (it.block + 1) + it.dataIndex;
      var left := Available(d, it.block, it.size) - it.dataIndex;
      var mid, end := at + |got|, at + Min(Sum(cnts), left);
      ReadsUnfold(d, it, cnts, next, image[at..mid], image[mid..end]);
      Joined(image, at, mid, end);
    }
  }
}
