/** ClothesFS as the object that reads and writes its device block by block through byte buffers
    (src/fs/clothesfs.cpp), and its iterator. Every operation is the one of ClothesModel. */
module ClothesFS {
  import opened Basics
  import opened Bytes
  import opened Device
  import opened M = ClothesModel
  import opened ClothesBlocks
  import T = ClothesTree

  type Buffer = array<Byte>

  // ------------------------------------------------------------------ numbers in buffers

  lemma {:induction false} DecodeSnoc(s: seq<Byte>, x: Byte)
    ensures Decode(s + [x]) == Decode(s) + Pow256(|s|) * x
  {
    if s != [] {
      DecodeSnoc(s[1..], x);
      assert (s + [x])[1..] == s[1..] + [x];
    }
  }

  /** v shifted right by n bytes. */
  function Shifted(v: nat, n: nat): (r: nat) {
    if n == 0 then v else Shifted(v / 256, n - 1)
  }

  lemma {:induction false} EncodeSnoc(v: nat, n: nat)
    ensures Encode(v, n + 1) == Encode(v, n) + [Shifted(v, n) % 256]
    ensures Shifted(v, n + 1) == Shifted(v, n) / 256
  {
    if n > 0 {
      EncodeSnoc(v / 256, n - 1);
    }
  }

  /** dataToNum, for the numbers that fit its 32-bit result. */
  method DataToNum(buf: Buffer, start: nat, cnt: nat) returns (res: nat)
    requires start + cnt <= buf.Length && cnt <= 4
    ensures res == Decode(buf[start..start + cnt])
  {
    res := 0;
    var scale: nat := 1;
    for i := start to start + cnt
      invariant res == Decode(buf[start..i]) && scale == Pow256(i - start)
    {
      DecodeSnoc(buf[start..i], buf[i]);
      assert buf[start..i + 1] == buf[start..i] + [buf[i]];
      res := res + buf[i] * scale;
      scale := scale * 256;
    }
  }

  method NumToData(num: nat, buf: Buffer, start: nat, cnt: nat)
    requires start + cnt <= buf.Length
    modifies buf
    ensures buf[..] == Splice(old(buf[..]), start, Encode(num, cnt))
  {
    ghost var was := buf[..];
    var rest := num;
    for i := start to start + cnt
      invariant rest == Shifted(num, i - start)
      invariant buf[..] == Splice(was, start, Encode(num, i - start))
    {
      EncodeSnoc(num, i - start);
      buf[i] := rest % 256;
      rest := rest / 256;
    }
  }

  method ClearedBuffer() returns (buf: Buffer)
    ensures fresh(buf) && buf.Length == BS && buf[..] == Zeros()
  {
    buf := new Byte[BS];
    for i := 0 to BS
      invariant forall j | 0 <= j < i :: buf[j] == 0
    {
      buf[i] := 0;
    }
  }

  /** The same as words of a block. */
  method WordAt(buf: Buffer, at: nat) returns (v: nat)
    requires buf.Length == BS && at + 4 <= BS
    ensures v == Word(buf[..], at)
  {
    assert buf[at..at + 4] == buf[..][at..at + 4];
    v := DataToNum(buf, at, 4);
  }

  method SetWordAt(buf: Buffer, at: nat, v: nat)
    requires buf.Length == BS && at + 4 <= BS
    modifies buf
    ensures buf[..] == SetWord(old(buf[..]), at, v)
  {
    NumToData(v, buf, at, 4);
  }

  method IdAt(buf: Buffer) returns (v: nat)
    requires buf.Length == BS
    ensures v == Id(buf[..])
  {
    v := DataToNum(buf, 0, 2);
    assert buf[0..2][1..] == [buf[1]];
    assert Decode([buf[1]]) == buf[1];
  }

  /** Count up to the next multiple of 4. */
  method RoundUp(x: nat) returns (r: nat)
    ensures r == Round4(x)
  {
    ghost var goal := Round4(x);
    r := x;
    while r % 4 != 0
      invariant x <= r <= goal && goal < r + 4
      decreases goal - r
    {
      r := r + 1;
    }
  }

  /** Round 12 + namelen up to a multiple of 4, in 32 bits. */
  method AlignedStart(namelen: nat) returns (ptr: nat)
    requires namelen < TWO32
    ensures ptr == if Round4(12 + namelen) < TWO32 then Round4(12 + namelen) else Round4(12 + namelen) - TWO32
  {
    ptr := 12 + namelen;
    ghost var wrapped := ptr >= TWO32;
    if ptr >= TWO32 { ptr := ptr - TWO32; }
    ptr := RoundUp(ptr);
    assert Round4(12 + namelen) == if wrapped then ptr + TWO32 else ptr;
    if ptr == TWO32 { ptr := 0; }
  }

  /** The writes of updateMeta: size, name, and the length counted on the way. */
  method WriteName(data: Buffer, name: seq<Byte>, size: nat)
    requires data.Length == BS && NameOk(name)
    modifies data
    ensures data[..] == Named(old(data[..]), name, size)
  {
    NamedInOrder(data[..], name, size);
    NumToData(size, data, 4, 8);
    var len := CopyName(data, name);
    SetWordAt(data, 12, len);
  }

  method CopyName(data: Buffer, name: seq<Byte>) returns (len: nat)
    requires data.Length == BS && NameOk(name)
    modifies data
    ensures len == |name| && data[..] == Splice(old(data[..]), 16, name)
  {
    ghost var was := data[..];
    len := 0;
    while len < |name|
      invariant len <= |name|
      invariant data[..] == Splice(was, 16, name[..len])
    {
      data[16 + len] := name[len];
      len := len + 1;
    }
    assert name[..len] == name;
  }

  lemma NamedInOrder(b: Block, name: seq<Byte>, size: nat)
    requires NameOk(name)
    ensures SetWord(Splice(Splice(b, 4, Encode(size, 8)), 16, name), 12, |name|) == Named(b, name, size)
  {
  }

  /** The copy loop of addData: as many bytes as fit behind the block's first word. */
  method FillData(data: Buffer, contents: seq<Byte>) returns (n: nat)
    requires data.Length == BS
    modifies data
    ensures n == if |contents| <= BS - 4 then |contents| else BS - 4
    ensures data[..] == Splice(old(data[..]), 4, contents[..n])
  {
    ghost var was := data[..];
    n := 0;
    while n < |contents| && 4 + n < BS
      invariant n <= |contents| && 4 + n <= BS
      invariant data[..] == Splice(was, 4, contents[..n])
    {
      data[4 + n] := contents[n];
      n := n + 1;
    }
  }

  /** The header sector; id is the volume identifier, volume its name, cut off at 32 bytes. */
  method Header(id: seq<Byte>, volume: seq<Byte>, blocks: nat, freechain: nat) returns (buf: Buffer)
    requires |id| == 8
    ensures fresh(buf) && buf.Length == BS
    ensures Spells(buf[..], HeaderBytes(id, Label(volume, 32), blocks * BS, freechain))
  {
    buf := ClearedBuffer();
    ghost var s := Identify(buf, id, volume, blocks);
    s := PutNum(1, buf, 88, 4, s);
    s := PutNum(2, buf, 92, 4, s);
    s := PutNum(0, buf, 96, 4, s);
    s := PutNum(0, buf, 100, 4, s);
    s := PutNum(freechain, buf, FREECHAIN, 4, s);
  }

  /** The fields in front of the root block number; s is what the buffer starts with then. */
  method Identify(buf: Buffer, id: seq<Byte>, volume: seq<Byte>, blocks: nat) returns (ghost s: seq<Byte>)
    requires |id| == 8 && buf.Length == BS && buf[..] == Zeros()
    modifies buf
    ensures s == IdentityBytes(id, Label(volume, 32), blocks * BS) && Spells(buf[..], s)
  {
    s := Nulls(32);
    s := PutMagic(buf, s);
    s := PutNum(BS, buf, 36, 2, s);
    s := SkipNulls(buf[..], s, 2);
    s := PutId(buf, id, s);
    s := PutNum(blocks * BS, buf, 48, 4, s);
    s := SkipNulls(buf[..], s, 4);
    var n;
    n, s := PutLabel(buf, volume, s);
    s := SkipNulls(buf[..], s, 32 - n);
  }

  method PutMagic(buf: Buffer, ghost s: seq<Byte>) returns (ghost r: seq<Byte>)
    requires buf.Length == BS && |s| == 32 && Spells(buf[..], s)
    modifies buf
    ensures r == s + MAGIC && Spells(buf[..], r)
  {
    ghost var was := buf[..];
    buf[32], buf[33], buf[34], buf[35] := 0x00, 0x42, 0x00, 0x41;
    assert buf[..] == Splice(was, 32, MAGIC);
    r := Appended(was, buf[..], s, MAGIC);
  }

  method PutNum(num: nat, buf: Buffer, at: nat, cnt: nat, ghost s: seq<Byte>) returns (ghost r: seq<Byte>)
    requires at == |s| && at + cnt <= buf.Length && Spells(buf[..], s)
    modifies buf
    ensures r == s + Encode(num, cnt) && Spells(buf[..], r)
  {
    ghost var was := buf[..];
    NumToData(num, buf, at, cnt);
    r := Appended(was, buf[..], s, Encode(num, cnt));
  }

  method PutId(buf: Buffer, id: seq<Byte>, ghost s: seq<Byte>) returns (ghost r: seq<Byte>)
    requires buf.Length == BS && |id| == 8 && |s| == 40 && Spells(buf[..], s)
    modifies buf
    ensures r == s + id && Spells(buf[..], r)
  {
    ghost var was := buf[..];
    for i := 0 to 8
      invariant buf[..] == Splice(was, 40, id[..i])
    {
      buf[40 + i] := id[i];
    }
    assert id[..8] == id;
    r := Appended(was, buf[..], s, id);
  }

  /** The copy of the volume name, up to its first NUL. */
  method PutLabel(buf: Buffer, volume: seq<Byte>, ghost s: seq<Byte>) returns (n: nat, ghost r: seq<Byte>)
    requires buf.Length == BS && |s| == 56 && Spells(buf[..], s)
    modifies buf
    ensures n == |Label(volume, 32)| && r == s + Label(volume, 32) && Spells(buf[..], r)
  {
    ghost var was, title := buf[..], Label(volume, 32);
    n := 0;
    while n < 32 && n < |volume| && volume[n] != 0
      invariant n <= |title| && buf[..] == Splice(was, 56, volume[..n])
    {
      buf[56 + n] := volume[n];
      n := n + 1;
    }
    r := Appended(was, buf[..], s, title);
  }

  /** A store behind what the buffer starts with. */
  lemma Appended(b: seq<Byte>, q: seq<Byte>, s: seq<Byte>, x: seq<Byte>) returns (r: seq<Byte>)
    requires Spells(b, s) && |s| + |x| <= |b| && q == Splice(b, |s|, x)
    ensures r == s + x && Spells(q, r)
  {
    r := s + x;
    forall i | 0 <= i < |r| ensures q[i] == r[i] {
      if i < |s| { assert b[..|s|][i] == b[i]; } else { assert q[|s|..|s| + |x|][i - |s|] == q[i]; }
    }
  }

  /** Bytes that are left as they are. */
  lemma SkipNulls(b: seq<Byte>, s: seq<Byte>, n: nat) returns (r: seq<Byte>)
    requires Spells(b, s) && |s| + n <= |b|
    ensures r == s + Nulls(n) && Spells(b, r)
  {
    r := s + Nulls(n);
    forall i | 0 <= i < |r| ensures b[i] == r[i] {
      if i < |s| { assert b[..|s|][i] == b[i]; }
    }
  }

  class Filesystem {
    var disk: seq<Block>
    ghost var handed: seq<nat>  // every block takeFreeBlock returned, in order
    ghost var origin: nat       // the first free block when that record began

    /** The blocks handed out so far are those up to the first free one, once each and in order. */
    ghost predicate Logged()
      reads this
    {
      |disk| > 0 && origin <= FirstFree(disk) && handed == Interval(origin, FirstFree(disk))
    }

    constructor (d: seq<Block>)
      ensures disk == d && handed == [] && (|d| > 0 ==> Logged())
    {
      disk, handed, origin := d, [], if |d| > 0 then FirstFree(d) else 0;
    }

    // ---------------------------------------------------------------- blocks

    /** The loop counts down from 0, wraps, and so reads one sector (src/fs/clothesfs.cpp:84-100). */
    method GetBlock(index: nat, data: Buffer) returns (ok: bool)
      requires data.Length == BS
      modifies data
      ensures ok <==> Device.Get(disk, index).Some?
      ensures data[..] == if ok then Device.Get(disk, index).value else old(data[..])
    {
      var block := 0;
      while block < 1
        invariant block == 0 || (block == TWO32 - 1 && Slot(index) < |disk|)
        invariant data[..] == if block == 0 then old(data[..]) else disk[Slot(index)]
        decreases block == 0
        modifies data
      {
        if Slot(index) >= |disk| { return false; }
        var sector := disk[Slot(index)];
        for i := 0 to BS
          invariant data[..i] == sector[..i]
          modifies data
        {
          data[i] := sector[i];
        }
        assert data[..] == sector;
        block := TWO32 - 1;
      }
      ok := true;
    }

    method PutBlock(index: nat, data: Buffer) returns (ok: bool)
      requires data.Length == BS
      modifies `disk
      ensures ok <==> Slot(index) < |old(disk)|
      ensures disk == if ok then Device.Put(old(disk), index, data[..]) else old(disk)
    {
      if Slot(index) >= |disk| { return false; }
      disk := disk[Slot(index) := data[..]];
      ok := true;
    }

    method FormatBlock(num: nat, next: nat) returns (ok: bool)
      modifies `disk
      ensures ok <==> Slot(num) < |old(disk)|
      ensures disk == if ok then Device.Put(old(disk), num, FreeBlock(next)) else old(disk)
    {
      var buf := ClearedBuffer();
      NumToData(META_ID, buf, 0, 4);
      IdBytes();
      assert buf[..] == Zeros()[0 := META_ID];
      SetWordAt(buf, LAST, next);
      ok := PutBlock(num, buf);
    }

    /** formatBlocks (src/fs/clothesfs.cpp:132-143) links every block from 2 on to its successor. */
    method FormatBlocks() returns (start: nat)
      requires 2 <= |disk| <= MAX_BLOCKS
      modifies `disk
      ensures start == 2 && |disk| == |old(disk)| && disk[..2] == old(disk)[..2]
      ensures forall i | 2 <= i < |disk| :: IsFreeAt(disk, i)
    {
      var next := 0;
      start := 2;
      var i := |disk| - 1;
      while i >= start
        invariant 1 <= i < |disk| == |old(disk)|
        invariant next == Link(|disk|, i) && disk[..2] == old(disk)[..2]
        invariant forall j | i < j < |disk| :: IsFreeAt(disk, j)
      {
        ghost var was := disk;
        var ok := FormatBlock(i, next);
        forall j | i <= j < |disk| ensures IsFreeAt(disk, j) {
          if j > i { assert IsFreeAt(was, j); }
        }
        next := i;
        i := i - 1;
      }
    }

    method InitMeta(index: nat, t: Byte) returns (ok: bool)
      modifies `disk
      ensures ok <==> Slot(index) < |old(disk)|
      ensures disk == if ok then Device.Put(old(disk), index, MetaBlock(t)) else old(disk)
    {
      var data := ClearedBuffer();
      NumToData(META_ID, data, 0, 2);
      IdBytes();
      assert data[..] == Zeros()[0 := META_ID];
      data[2] := t;
      data[3] := 0;
      assert data[..] == MetaBlock(t);
      ok := PutBlock(index, data);
    }

    /** initData (src/fs/clothesfs.cpp:258-275): the position of the first payload byte, or 0. */
    method InitData(index: nat) returns (pos: nat)
      modifies `disk
      ensures pos == if Slot(index) < |old(disk)| then 4 else 0
      ensures disk == if pos == 4 then Device.Put(old(disk), index, DataBlock()) else old(disk)
    {
      var data := ClearedBuffer();
      NumToData(PAYLOAD_ID, data, 0, 2);
      IdBytes();
      data[2] := PAYLOAD_USED;
      data[3] := 0;
      assert data[..] == DataBlock();
      var ok := PutBlock(index, data);
      pos := if ok then 4 else 0;
    }

    method TakeFreeBlock() returns (block: nat)
      requires |disk| > 0
      modifies `disk, `handed
      ensures (disk, block) == M.Take(old(disk)) && handed == old(handed) + Taken(block)
      ensures old(M.Inv(disk) && Logged()) ==> Logged()
    {
      var data := ClearedBuffer();
      var free := ClearedBuffer();
      var ok := GetBlock(0, data);
      var head := WordAt(data, FREECHAIN);
      ok := GetBlock(head, free);
      if !ok { return 0; }
      var next := WordAt(free, LAST);
      SetWordAt(data, FREECHAIN, next);
      ok := PutBlock(0, data);
      block := head;
      handed := handed + Taken(block);
      if old(M.Inv(disk) && Logged()) { TakenLogged(old(disk), origin); }
    }

    /** dirContinues (src/fs/clothesfs.cpp:331-342). */
    method DirContinues(index: nat, next: nat) returns (ok: bool)
      modifies `disk
      ensures ok <==> Slot(index) < |old(disk)|
      ensures disk == if ok then Device.Put(old(disk), index, SetWord(old(disk)[Slot(index)], LAST, next))
                      else old(disk)
    {
      var data := ClearedBuffer();
      ok := GetBlock(index, data);
      if !ok { return; }
      SetWordAt(data, LAST, next);
      ok := PutBlock(index, data);
    }

    // ---------------------------------------------------------------- entries

    /** The scan of addToMeta (src/fs/clothesfs.cpp:380-397). */
    method ScanMeta(data: Buffer) returns (at: Option<nat>)
      requires data.Length == BS
      ensures at == FindZero(data[..], ScanStart(data[..]))
    {
      var namelen := WordAt(data, 12);
      var ptr := AlignedStart(namelen);
      assert ptr == ScanStart(data[..]);
      at := ScanFrom(data, ptr);
    }

    method ScanFrom(data: Buffer, start: nat) returns (at: Option<nat>)
      requires data.Length == BS && start % 4 == 0
      ensures at == FindZero(data[..], start)
    {
      ghost var b: Block := data[..];
      ghost var goal := FindZero(b, start);
      var ptr := start;
      while ptr < LAST
        invariant ptr % 4 == 0 && goal == FindZero(b, ptr)
      {
        var val := WordAt(data, ptr);
        ScanStep(b, ptr, ptr + 4, val, goal);
        if val == 0 { return Some(ptr); }
        ptr := ptr + 4;
      }
      at := None;
    }

    method AddToMeta(index: nat, entry: nat, t: Byte) returns (ok: bool)
      requires M.Inv(disk) && Logged() && (t == META_DIR || t == META_FILE)
      modifies `disk, `handed
      ensures (disk, ok) == M.AddToMeta(old(disk), index, entry, t)
      ensures Logged()
      decreases |disk| - FirstFree(disk), |disk| - Slot(index), 1
    {
      var data := ClearedBuffer();
      ok := GetBlock(index, data);
      if !ok { return; }
      var id := IdAt(data);
      if id != META_ID || BaseType(data[2]) != t { return false; }
      var at := ScanMeta(data);
      if at.Some? {
        SetWordAt(data, at.value, entry);
        ok := PutBlock(index, data);
        return;
      }
      UseOnly(disk, Slot(index));
      var next := WordAt(data, LAST);
      if next != 0 {
        ok := AddToMeta(next, entry, t);
      } else {
        ok := ExtendMeta(Slot(index), entry, t);
      }
    }

    /** The end of addToMeta: continue in a free block. */
    method ExtendMeta(i: nat, entry: nat, t: Byte) returns (ok: bool)
      requires M.Inv(disk) && Logged() && (t == META_DIR || t == META_FILE)
      requires 1 <= i < FirstFree(disk) && IsMeta(disk[i]) && Word(disk[i], LAST) == 0
      modifies `disk, `handed
      ensures (disk, ok) == M.Extend(old(disk), i, entry, t)
      ensures Logged()
      decreases |disk| - FirstFree(disk), |disk| - i, 0
    {
      TakeExact(disk);
      var next := TakeFreeBlock();
      if next == 0 { return false; }
      ExtendInv(disk, i, next, t);
      ok := DirContinues(i, next);
      ok := InitMeta(next, ContType(t));
      ok := AddToMeta(next, entry, t);
    }

    // ---------------------------------------------------------------- files and directories

    /** updateMeta (src/fs/clothesfs.cpp:457-490). */
    method UpdateMeta(index: nat, name: seq<Byte>, size: nat) returns (ok: bool)
      requires NameOk(name)
      modifies `disk
      ensures ok <==> Slot(index) < |old(disk)| && BaseType(old(disk)[Slot(index)][2]) in {META_FILE, META_DIR}
      ensures disk == if ok then Device.Put(old(disk), index, Named(old(disk)[Slot(index)], name, size)) else old(disk)
    {
      var data := ClearedBuffer();
      ok := GetBlock(index, data);
      if !ok { return; }
      var t := BaseType(data[2]);
      if t != META_FILE && t != META_DIR { return false; }
      WriteName(data, name, size);
      ok := PutBlock(index, data);
    }

    /** Fill a new data block; n bytes fit. */
    method WriteData(block: nat, contents: seq<Byte>) returns (n: nat)
      requires block < |disk| <= MAX_BLOCKS
      modifies `disk
      ensures n == if |contents| <= BS - 4 then |contents| else BS - 4
      ensures disk == old(disk)[block := Payload(contents[..n])]
    {
      var pos := InitData(block);
      var data := ClearedBuffer();
      var ok := GetBlock(block, data);
      n := FillData(data, contents);
      ok := PutBlock(block, data);
    }

    /** addData (src/fs/clothesfs.cpp:419-455). */
    method AddData(meta: nat, contents: seq<Byte>) returns (ok: bool)
      requires M.Inv(disk) && Logged()
      modifies `disk, `handed
      ensures (disk, ok) == M.AddData(old(disk), meta, contents)
      ensures Logged()
      decreases |contents|
    {
      TakeGrown(disk);
      var block := TakeFreeBlock();
      if block == 0 { return false; }
      AddToMetaGrown(disk, meta, block, META_FILE);
      ok := AddToMeta(meta, block, META_FILE);
      if !ok { return; }
      ghost var s := disk;
      var n := WriteData(block, contents);
      PutInv(s, block, Payload(contents[..n]));
      if n < |contents| {
        ok := AddData(meta, contents[n..]);
      }
    }

    /** The common start of addFile and addDir; 0 stands for failure. */
    method AddObject(parent: nat, name: seq<Byte>, t: Byte, size: nat) returns (block: nat)
      requires M.Inv(disk) && Logged() && NameOk(name) && (t == META_DIR || t == META_FILE)
      modifies `disk, `handed
      ensures (disk, block) == M.AddObject(old(disk), parent, name, t, size)
      ensures Logged()
    {
      if parent == 0 { return 0; }
      TakeGrown(disk);
      block := TakeFreeBlock();
      if block == 0 { return; }
      AddToMetaGrown(disk, parent, block, META_DIR);
      var ok := AddToMeta(parent, block, META_DIR);
      if !ok { return 0; }
      NameObject(block, name, t, size);
    }

    method NameObject(block: nat, name: seq<Byte>, t: Byte, size: nat)
      requires block < |disk| <= MAX_BLOCKS && NameOk(name) && (t == META_DIR || t == META_FILE)
      modifies `disk
      ensures disk == old(disk)[block := Named(MetaBlock(t), name, size)]
    {
      var ok := InitMeta(block, t);
      ok := UpdateMeta(block, name, size);
    }

    method AddFile(parent: nat, name: seq<Byte>, contents: seq<Byte>) returns (ok: bool)
      requires M.Inv(disk) && Logged() && NameOk(name)
      modifies `disk, `handed
      ensures (disk, ok) == M.AddFile(old(disk), parent, name, contents)
      ensures Grown(old(disk), disk) && Logged()
    {
      StepGrown(disk, FileOp(parent, name, contents));
      AddObjectGrown(disk, parent, name, META_FILE, |contents|);
      var block := AddObject(parent, name, META_FILE, |contents|);
      if block == 0 { return false; }
      ok := AddData(block, contents);
    }

    method AddDir(parent: nat, name: seq<Byte>) returns (ok: bool)
      requires M.Inv(disk) && Logged() && NameOk(name)
      modifies `disk, `handed
      ensures (disk, ok) == M.AddDir(old(disk), parent, name)
      ensures Grown(old(disk), disk) && Logged()
    {
      StepGrown(disk, DirOp(parent, name));
      var block := AddObject(parent, name, META_DIR, 0);
      ok := block != 0;
    }

    // ---------------------------------------------------------------- format

    /** detect (src/fs/clothesfs.cpp:64-82): the magic and the block size of the header, if there is one. */
    method Detect() returns (ok: bool, blocksize: nat)
      ensures if disk == [] then !ok else (ok, blocksize) == Detected(disk[0])
    {
      var buf := ClearedBuffer();
      blocksize := 0;
      ok := GetBlock(0, buf);
      if !ok { return; }
      assert buf[36..38] == buf[..][36..38];
      blocksize := DataToNum(buf, 36, 2);
      ok := buf[32] == 0x00 && buf[33] == 0x42 && buf[34] == 0x00 && buf[35] == 0x41;
      assert ok <==> buf[..][32..36] == MAGIC by {
        assert buf[..][32..36] == [buf[32], buf[33], buf[34], buf[35]];
      }
    }

    method StoreHeader(id: seq<Byte>, volume: seq<Byte>, start: nat) returns (ok: bool, ghost h: Block)
      requires |disk| > 0 && |id| == 8 && start == 2
      modifies `disk
      ensures ok && disk == old(disk)[0 := h] && HeaderOk(h)
      ensures Spells(h, HeaderBytes(id, Label(volume, 32), |disk| * BS, 2)) && Detected(h) == (true, BS)
    {
      var buf := Header(id, volume, |disk|, start);
      h := buf[..];
      HeaderSound(h, id, Label(volume, 32), |disk| * BS);
      ok := PutBlock(0, buf);
    }

    /** format (src/fs/clothesfs.cpp:159-242): the header, the free chain, and a root directory
        "/" without entries. */
    method Format(id: seq<Byte>, volume: seq<Byte>) returns (ok: bool)
      requires 2 <= |disk| <= MAX_BLOCKS && |id| == 8
      modifies this
      ensures Logged() && origin == 2 && handed == []
      ensures ok && |disk| == |old(disk)| && disk == Formatted(|disk|, disk[0])
      ensures Spells(disk[0], HeaderBytes(id, Label(volume, 32), |disk| * BS, 2)) && Detected(disk[0]) == (true, BS)
      ensures T.Rep(disk, map[1 := T.Dir([0x2F], [])])
    {
      var start := FormatBlocks();
      ghost var d := disk;
      ghost var h;
      ok, h := StoreHeader(id, volume, start);
      ok := InitMeta(1, META_DIR);
      ok := UpdateMeta(1, [0x2F], 0);
      FormatDone(d, disk, h);
      T.FormatRep(|disk|, h);
      FormatInv(|disk|, h);
      handed, origin := [], 2;
    }
  }

  // ------------------------------------------------------------------ the iterator

  /** ClothesFS::Iterator with its three block buffers. */
  class Iterator {
    const fs: Filesystem
    const parent: Buffer
    const data: Buffer
    const content: Buffer
    var ok: bool
    var index: nat
    var block: nat
    var pos: nat
    var dataBlock: nat

    ghost predicate Valid() {
      && parent.Length == data.Length == content.Length == BS
      && parent != data && parent != content && data != content
    }

    ghost function Abs(): (it: T.Iter)
      requires Valid()
      reads this, parent, data, content
    {
      T.Iter(ok, parent[..], index, block, data[..], content[..], pos, dataBlock)
    }

    /** list (src/fs/clothesfs.cpp:541-564). */
    constructor (f: Filesystem, start: nat)
      ensures Valid() && fs == f && fresh(parent) && fresh(data) && fresh(content)
      ensures Abs() == T.List(fs.disk, start)
    {
      fs := f;
      ok, index, block, pos, dataBlock := false, 0, start, 0, 0;
      parent := new Byte[BS](_ => 0);
      data := new Byte[BS](_ => 0);
      content := new Byte[BS](_ => 0);
      new;
      assert parent[..] == data[..] == content[..] == Zeros();
      if start != 0 {
        var got := fs.GetBlock(start, parent);
        if got {
          got := GetCurrent();
          ok := got;
        }
      }
    }

    /** Where the entries of a buffer start: behind the name, if it is the first block. */
    method EntryStart(buf: Buffer, named: bool) returns (start: nat)
      requires buf.Length == BS
      ensures start == if named then Wrap(Round4(16 + Word(buf[..], 12))) else 4
    {
      start := 4;
      if named {
        start := start + 8;
        var namelen := WordAt(buf, start);
        start := RoundUp(start + 4 + namelen);
        if start >= TWO32 { start := start - TWO32; }
      }
    }

    method GetCurrent() returns (r: bool)
      requires Valid()
      modifies this`index, this`block, parent, data
      ensures (Abs(), r) == T.GetCurrent(fs.disk, old(Abs()))
    {
      if parent[2] == META_FREE { return false; }
      var start := EntryStart(parent, parent[2] == META_FILE || parent[2] == META_DIR);
      var at := Wrap(4 * index + start);
      CurrentUnfold(fs.disk, Abs(), at);
      if at >= LAST {
        r := GoOn();
      } else {
        r := Fetch(at);
      }
    }

    /** The continuation branch of getCurrent. */
    method GoOn() returns (r: bool)
      requires Valid()
      modifies this`index, this`block, parent, data
      ensures (Abs(), r) == T.GoOn(fs.disk, old(Abs()))
    {
      var next := WordAt(parent, LAST);
      if next == 0 { return false; }
      r := fs.GetBlock(next, parent);
      if !r { return; }
      index := 0;
      r := Fetch(0);
    }

    method Fetch(at: nat) returns (r: bool)
      requires Valid() && at < LAST
      modifies this`block, data
      ensures (Abs(), r) == T.Fetch(fs.disk, old(Abs()), at)
    {
      block := WordAt(parent, at);
      if block == 0 { return false; }
      r := fs.GetBlock(block, data);
    }

    method Next() returns (r: bool)
      requires Valid()
      modifies this, parent, data
      ensures Abs() == T.Next(fs.disk, old(Abs())) && r == ok
    {
      index := index + 1;
      ghost var moved := Abs();
      var got := GetCurrent();
      NextUnfold(fs.disk, old(Abs()), Abs(), got);
      ok := got;
      pos, dataBlock := 0, 0;
      r := ok;
    }

    /** name (src/fs/clothesfs.cpp:696-706), of an entry whose name lies inside its block. */
    method Name() returns (name: seq<Byte>)
      requires Valid() && 16 + Word(data[..], 12) <= BS
      ensures name == T.NameOf(Abs())
    {
      var namelen := WordAt(data, 12);
      name := [];
      for i := 0 to namelen
        invariant name == data[16..16 + i]
      {
        name := name + [data[16 + i]];
      }
    }

    /** The start of read: fetch a data block if there is none to go on with. */
    method Open() returns (r: bool)
      requires Valid()
      modifies this`pos, this`dataBlock, data, content
      ensures (Abs(), r) == T.Open(fs.disk, old(Abs()))
    {
      if !((pos == 0 && dataBlock == 0) || pos >= BS) { return true; }
      var start := EntryStart(data, data[2] == META_FILE);
      if start >= LAST {
        r := OpenNext();
      } else {
        r := OpenAt(start);
      }
    }

    /** The part of read that goes on in the continuation of the meta block. */
    method OpenNext() returns (r: bool)
      requires Valid()
      modifies this`pos, this`dataBlock, data, content
      ensures (Abs(), r) == T.OpenNext(fs.disk, old(Abs()))
    {
      var next := WordAt(data, LAST);
      if next == 0 { return false; }
      r := fs.GetBlock(next, data);
      if !r { return; }
      r := OpenAt(4);
    }

    method OpenAt(at: nat) returns (r: bool)
      requires Valid() && at + 4 <= BS
      modifies this`pos, this`dataBlock, content
      ensures (Abs(), r) == T.OpenAt(fs.disk, old(Abs()), at)
    {
      dataBlock := WordAt(data, at);
      if dataBlock == 0 { return false; }
      r := fs.GetBlock(dataBlock, content);
      if !r { return; }
      var id := IdAt(content);
      if id != PAYLOAD_ID || content[2] != PAYLOAD_USED { return false; }
      pos := 4;
      r := true;
    }

    /** read (src/fs/clothesfs.cpp:607-677). */
    method Read(cnt: nat) returns (got: seq<Byte>)
      requires Valid()
      modifies this`pos, this`dataBlock, data, content
      ensures Abs() == T.Read(fs.disk, old(Abs()), cnt).0 && got == T.Read(fs.disk, old(Abs()), cnt).1
    {
      var r := Open();
      got := [];
      if r { got := Drain(cnt); }
    }

    /** The copy loop of read. */
    method Drain(cnt: nat) returns (got: seq<Byte>)
      requires Valid()
      modifies this`pos
      ensures Abs() == T.Drain(old(Abs()), cnt).0 && got == T.Drain(old(Abs()), cnt).1
    {
      got := [];
      var left := cnt;
      while pos < BS && left > 0
        invariant old(pos) <= pos && (pos <= BS || got == []) && pos - old(pos) == cnt - left == |got|
        invariant pos <= BS ==> got == content[old(pos)..pos]
      {
        got := got + [content[pos]];
        pos := pos + 1;
        left := left - 1;
      }
    }
  }

  /** Taking a block appends it to the record of those up to the first free one. */
  lemma TakenLogged(d: seq<Block>, origin: nat)
    requires M.Inv(d) && origin <= FirstFree(d)
    ensures var (r, block) := Take(d);
      && |r| > 0 && origin <= FirstFree(r)
      && Interval(origin, FirstFree(d)) + Taken(block) == Interval(origin, FirstFree(r))
  {
    TakeExact(d);
    var k := FirstFree(Take(d).0);
    IntervalJoin(origin, FirstFree(d), k);
    assert FirstFree(d) < |d| ==> Interval(FirstFree(d), k) == [FirstFree(d)];
  }

  /** Header and root over formatted blocks make a formatted device. */
  lemma FormatDone(d: seq<Block>, r: seq<Block>, h: Block)
    requires 2 <= |d| <= MAX_BLOCKS && forall i | 2 <= i < |d| :: IsFreeAt(d, i)
    requires r == d[0 := h][1 := Named(MetaBlock(META_DIR), [0x2F], 0)]
    ensures r == Formatted(|r|, h)
  {
    var f := Formatted(|r|, h);
    forall i | 2 <= i < |r| ensures r[i] == f[i] { assert IsFreeAt(d, i); }
  }

  lemma ScanStep(b: Block, p: nat, q: nat, val: nat, goal: Option<nat>)
    requires p % 4 == 0 && p < LAST && q == p + 4 && val == Word(b, p) && goal == FindZero(b, p)
    ensures q % 4 == 0 && (val == 0 ==> goal == Some(p)) && (val != 0 ==> goal == FindZero(b, q))
  {
  }

  lemma CurrentUnfold(d: seq<Block>, it: T.Iter, at: nat)
    requires it.parent[2] != META_FREE && at == Wrap(4 * it.index + T.ReadStart(it.parent))
    ensures T.GetCurrent(d, it) == if at >= LAST then T.GoOn(d, it) else T.Fetch(d, it, at)
  {
  }

  lemma NextUnfold(d: seq<Block>, it: T.Iter, n: T.Iter, ok: bool)
    requires T.GetCurrent(d, it.(index := it.index + 1)) == (n, ok)
    ensures T.Next(d, it) == n.(ok := ok, pos := 0, dataBlock := 0)
  {
  }

  lemma IdBytes()
    ensures Encode(META_ID, 4) == [0x42, 0, 0, 0]
    ensures Encode(META_ID, 2) == [0x42, 0] && Encode(PAYLOAD_ID, 2) == [0x42, 0x42]
  {
    assert Encode(0, 3) == [0, 0, 0] by { assert Encode(0, 2) == [0, 0] by { assert Encode(0, 1) == [0]; } }
  }
}
