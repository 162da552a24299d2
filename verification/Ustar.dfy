/** The ustar reader as the object that steps over the device (src/fs/ustar.cpp). */
module Ustar {
  import opened Basics
  import opened Bytes
  import opened Device
  import opened M = UstarModel

  /** parseOct (src/fs/ustar.cpp:52-71). */
  method ParseOct(data: seq<Byte>) returns (res: nat)
    ensures res == Octal(data[..DigitRun(data)])
  {
    res := 0;
    var i := 0;
    while i < |data| && data[i] != 0 && Digit(data[i])
      invariant i <= |data| && (forall j | 0 <= j < i :: Digit(data[j]))
      invariant res == Octal(data[..i])
    {
      assert data[..i + 1][..i] == data[..i];
      res := res * 8 + DigitValue(data[i]);
      i := i + 1;
    }
    RunLength(data, i);
  }

  class Iterator {
    const disk: seq<Block>
    var ok: bool
    var block: nat
    var index: nat
    var dataBlock: nat
    var dataIndex: nat
    var size: nat
    var data: Block
    var content: Block

    ghost function Abs(): (it: Iter)
      reads this
    {
      Iter(ok, block, index, dataBlock, dataIndex, size, data)
    }

    /** list(0) (src/fs/ustar.cpp:141-158). */
    constructor (d: seq<Block>)
      ensures disk == d && Abs() == M.List(d)
    {
      disk := d;
      ok, block, index, dataBlock, dataIndex, size, data, content := false, 0, 0, 0, 0, 0, Zeros(), Zeros();
      new;
      if |d| > 0 {
        data := d[0];
        var r := GetCurrent();
        ok := r;
      }
    }

    /** getCurrent (src/fs/ustar.cpp:160-194). */
    method GetCurrent() returns (r: bool)
      modifies this
      ensures (Abs(), r) == M.GetCurrent(disk, old(Abs())) && content == old(content)
    {
      if Slot(index) >= |disk| { return false; }
      if block != index {
        var next := Wrap(block + (size + BS - 1) / BS + 1);
        if next < index { return false; }
        index := next;
        if Slot(index) >= |disk| { return false; }
        data := disk[Slot(index)];
        block := index;
      }
      r := Accept();
    }

    /** The end of getCurrent: the magic and the size field. */
    method Accept() returns (r: bool)
      modifies `dataBlock, `size
      ensures (Abs(), r) == M.Accept(old(Abs()))
    {
      dataBlock := Wrap(block + 1);
      if data[MAGIC..MAGIC + 5] != [0x75, 0x73, 0x74, 0x61, 0x72] { return false; }
      size := ParseOct(data[SIZE_FIELD..SIZE_FIELD + 12]);
      r := true;
    }

    method Next() returns (r: bool)
      modifies this
      ensures Abs() == M.Next(disk, old(Abs())) && r == ok
    {
      index := Wrap(index + 1);
      r := GetCurrent();
      NextUnfold(disk, old(Abs()), Abs(), r);
      ok := r;
      dataIndex := 0;
    }

    /** An open entry that ends below 4 GiB. */
    ghost predicate Open()
      reads this
    {
      && block < |disk| && dataBlock == block + 1 && block + 1 + BlocksOf(size) < MAX_BLOCKS
      && dataIndex <= Available(disk, block, size)
    }

    /** read (src/fs/ustar.cpp:196-231), block by block: it returns what ReadSpec promises. */
    method Read(cnt: nat) returns (buf: seq<Byte>)
      requires Open()
      modifies this`dataIndex, this`content
      ensures Open() && Abs() == M.ReadSpec(disk, old(Abs()), cnt).0 && buf == M.ReadSpec(disk, old(Abs()), cnt).1
    {
      buf := Collect(cnt, Image(disk), Available(disk, block, size), BS * (block + 1) + dataIndex);
    }

    /** The loop of read; image is the device as one string, avail what it holds of the entry, and
        from where the entry goes on. */
    method Collect(cnt: nat, ghost image: seq<Byte>, ghost avail: nat, ghost from: nat) returns (buf: seq<Byte>)
      requires Open() && image == Image(disk) && avail == Available(disk, block, size)
      requires from == BS * (block + 1) + dataIndex
      modifies this`dataIndex, this`content
      ensures Open() && dataIndex == old(dataIndex) + |buf| && |buf| == Min(cnt, avail - old(dataIndex))
      ensures from + |buf| <= |image| && buf == image[from..from + |buf|]
    {
      buf := [];
      var left := cnt;
      while left > 0 && dataIndex < size
        invariant Open() && left >= 0 && |buf| == cnt - left && dataIndex == old(dataIndex) + |buf|
        invariant from + |buf| <= |image| && buf == image[from..from + |buf|]
      {
        var chunk := ReadBlock(left, image, avail, from + |buf|);
        if chunk == [] { break; }
        Joined(image, from, from + |buf|, from + |buf| + |chunk|);
        buf := buf + chunk;
        left := left - |chunk|;
      }
    }

    /** One turn of the loop: the rest of one block, or nothing behind the end of the device. */
    method ReadBlock(left: nat, ghost image: seq<Byte>, ghost avail: nat, ghost at: nat) returns (chunk: seq<Byte>)
      requires Open() && left > 0 && dataIndex < size && image == Image(disk)
      requires avail == Available(disk, block, size) && at == BS * (block + 1) + dataIndex
      modifies this`dataIndex, this`content
      ensures Open() && dataIndex == old(dataIndex) + |chunk| && |chunk| <= left
      ensures at + |chunk| <= |image| && chunk == image[at..at + |chunk|]
      ensures chunk == [] <==> old(dataIndex) == avail
    {
      var end := Wrap(block + (size + BS - 1) / BS + 1);
      var cblock, offset := dataIndex / BS, dataIndex % BS;
      var k := dataBlock + cblock;
      Within(disk, block, size, dataIndex, k, offset, end, avail, at);
      if k >= end { return []; }
      if Slot(k) >= |disk| { return []; }
      content := disk[Slot(k)];
      var bcnt := Chunk(left, offset, size - dataIndex);
      ChunkInImage(disk, image, k, offset, bcnt, at);
      chunk := content[offset..offset + bcnt];
      dataIndex := dataIndex + bcnt;
    }
  }

  /** Block k holds byte x of the entry at h, at its offset, if the device reaches that far; at is the
      byte's place in the image. */
  lemma Within(d: seq<Block>, h: nat, size: nat, x: nat, k: nat, offset: nat, end: nat, avail: nat, at: nat)
    requires h < |d| && x < size && h + 1 + BlocksOf(size) < MAX_BLOCKS
    requires avail == Available(d, h, size) && x <= avail && at == BS * (h + 1) + x
    requires k >= h + 1 && x == BS * (k - (h + 1)) + offset && offset < BS && end == Wrap(h + BlocksOf(size) + 1)
    ensures k < end && Slot(k) == k && at == BS * k + offset
    ensures k < |d| <==> x < avail
    ensures k < |d| ==> x + Min(BS - offset, size - x) <= avail
  {
    BlockOfByte(size, x, k - (h + 1), offset);
    if k < |d| { assert BS * (|d| - h - 1) >= BS * (k - h); }
  }

  lemma BlockOfByte(size: nat, x: nat, k: nat, offset: nat)
    requires x < size && x == BS * k + offset
    ensures k < BlocksOf(size)
  {
  }

  /** How many bytes one turn of the loop copies. */
  method Chunk(left: nat, offset: nat, rest: nat) returns (bcnt: nat)
    requires offset < BS && left > 0 && rest > 0
    ensures bcnt == Min(left, Min(BS - offset, rest))
  {
    bcnt := left;
    if bcnt > BS { bcnt := BS; }
    if offset + bcnt > BS { bcnt := BS - offset; }
    if bcnt > rest { bcnt := rest; }
  }

  lemma ChunkInImage(d: seq<Block>, image: seq<Byte>, k: nat, offset: nat, n: nat, at: nat)
    requires k < |d| && offset + n <= BS && image == Image(d) && at == BS * k + offset
    ensures at + n <= |image| && image[at..at + n] == d[k][offset..offset + n]
  {
    ImageAt(d, k);
    PartOfBlock(image, d[k], BS * k, offset, n, at);
  }

  lemma PartOfBlock(image: seq<Byte>, b: Block, lo: nat, offset: nat, n: nat, at: nat)
    requires lo + BS <= |image| && image[lo..lo + BS] == b && offset + n <= BS && at == lo + offset
    ensures image[at..at + n] == b[offset..offset + n]
  {
    SubSlice(image, lo, lo + BS, offset, offset + n);
  }

  lemma NextUnfold(d: seq<Block>, it: Iter, n: Iter, ok: bool)
    requires M.GetCurrent(d, it.(index := Wrap(it.index + 1))) == (n, ok)
    ensures M.Next(d, it) == n.(ok := ok, dataIndex := 0)
  {
  }

  /** Header number k of the archive is the first one with this name. */
  ghost predicate FirstNamed(d: seq<Block>, path: seq<Byte>, k: nat)
    requires k < |Headers(d, 0)|
  {
    HeadersInside(d, 0);
    var hs := Headers(d, 0);
    NameOf(d[hs[k]]) == path && NoneBefore(d, path, k)
  }

  /** None of the first k entries has this name. */
  ghost predicate NoneBefore(d: seq<Block>, path: seq<Byte>, k: nat)
    requires k <= |Headers(d, 0)|
  {
    HeadersInside(d, 0);
    forall j | 0 <= j < k :: NameOf(d[Headers(d, 0)[j]]) != path
  }

  lemma HeadersInside(d: seq<Block>, h: nat)
    ensures forall j | 0 <= j < |Headers(d, h)| :: Headers(d, h)[j] < |d|
  {
    forall j | 0 <= j < |Headers(d, h)| ensures Headers(d, h)[j] < |d| { HeadersRise(d, h, j); }
  }

  /** findFile (src/fs/ustar.cpp:317-336): the first entry with this name, ready to be read, or an
      iterator that is not ok if there is none. */
  method FindFile(d: seq<Block>, path: seq<Byte>) returns (it: Iterator, ghost k: nat)
    requires Bounded(d, 0)
    ensures fresh(it) && it.disk == d && k <= |Headers(d, 0)|
    ensures it.ok ==> k < |Headers(d, 0)| && it.block == Headers(d, 0)[k] && FirstNamed(d, path, k) && it.Open()
    ensures !it.ok ==> k == |Headers(d, 0)| && NoneBefore(d, path, k)
  {
    it := new Iterator(d);
    k := 0;
    ListExact(d);
    ghost var hs := Headers(d, 0);
    HeadersInside(d, 0);
    assert hs[0..] == hs;
    while it.ok
      invariant fresh(it) && it.disk == d && k <= |hs|
      invariant it.ok ==> At(d, it.Abs(), it.block) && Bounded(d, it.block)
      invariant hs[k..] == if it.ok then Headers(d, it.block) else []
      invariant NoneBefore(d, path, k)
      decreases if it.ok then |d| - it.block else 0, it.ok
    {
      assert hs[k] == hs[k..][0] == it.block;
      if NameOf(it.data) == path { return; }
      NextExact(d, it.Abs(), it.block);
      assert hs[k + 1..] == hs[k..][1..];
      k := k + 1;
      var more := it.Next();
      if !more { break; }
    }
  }
}
