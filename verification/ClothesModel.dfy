/** ClothesFS (src/fs/clothesfs.cpp) on values: blocks of 512 bytes, one sector each, on a device
    of at most 4 GiB. Block 0 is the header, block 1 the root directory; free blocks form a chain
    through their last word. */
module ClothesModel {
  import opened Basics
  import opened Bytes
  import opened Device

  const LAST := 508           // the link word at the end of every block
  const FREECHAIN := 104      // header offset of the first free block

  const META_ID := 0x42
  const PAYLOAD_ID := 0x4242
  const META_FREE := 0x00
  const META_FILE := 0x02
  const META_DIR := 0x04
  const META_FILE_CONT := 0x08
  const META_DIR_CONT := 0x10
  const PAYLOAD_USED := 0x01

  // ------------------------------------------------------------------ numbers and words

  /** The numbers from a up to b. */
  function Interval(a: nat, b: nat): (r: seq<nat>)
    ensures |r| == if a < b then b - a else 0
    ensures forall i | 0 <= i < |r| :: r[i] == a + i
    decreases b - a
  {
    if a < b then [a] + Interval(a + 1, b) else []
  }

  lemma {:induction false} IntervalJoin(a: nat, b: nat, c: nat)
    requires a <= b <= c
    ensures Interval(a, b) + Interval(b, c) == Interval(a, c)
    decreases b - a
  {
    if a < b { IntervalJoin(a + 1, b, c); }
  }

  lemma IntervalGrows(a: nat, b: nat)
    requires a <= b
    ensures Interval(a, b) + [b] == Interval(a, b + 1)
  {
  }

  function Word(b: Block, at: nat): (v: nat)
    requires at + 4 <= BS
    ensures v < TWO32
  {
    LoadBound(b, at);
    Load32(b, at)
  }

  function SetWord(b: Block, at: nat, v: nat): (r: Block)
    requires at + 4 <= BS
    ensures forall i | 0 <= i < BS && !(at <= i < at + 4) :: r[i] == b[i]
    ensures v < TWO32 ==> Word(r, at) == v
  {
    if v < TWO32 then LoadStore(b, at, v); Store32(b, at, v) else Store32(b, at, v)
  }

  /** A word none of whose bytes changed. */
  lemma WordSame(b: Block, c: Block, at: nat)
    requires at + 4 <= BS && forall i | at <= i < at + 4 :: b[i] == c[i]
    ensures Word(b, at) == Word(c, at)
  {
    LoadSame(b, c, at);
  }

  /** The two-byte block identifier. */
  function Id(b: Block): (v: nat) {
    var lo: int, hi: int := b[0], b[1];
    lo + 256 * hi
  }

  function BaseType(t: nat): (r: nat) {
    if t == META_FILE_CONT then META_FILE else if t == META_DIR_CONT then META_DIR else t
  }

  function Round4(x: nat): (r: nat)
    ensures x <= r < x + 4 && r % 4 == 0
  {
    if x % 4 == 0 then x else x + 4 - x % 4
  }

  // ------------------------------------------------------------------ free blocks

  /** What formatBlock writes (src/fs/clothesfs.cpp:121-130). */
  function FreeBlock(next: nat): (b: Block)
    ensures next < TWO32 ==> Word(b, LAST) == next
    ensures Id(b) == META_ID && b[2] == META_FREE
  {
    SetWord(Zeros()[0 := META_ID], LAST, next)
  }

  /** The first free block according to the header; with none left, the end of the device. */
  function FirstFree(d: seq<Block>): (k: nat)
    requires |d| > 0
  {
    var head := Word(d[0], FREECHAIN);
    if head == 0 then |d| else head
  }

  /** The link of block i of a chain that runs up to the end of an n-block device. */
  function Link(n: nat, i: nat): (r: nat) {
    if i + 1 < n then i + 1 else 0
  }

  predicate IsMeta(b: Block) {
    Id(b) == META_ID && b[2] != META_FREE
  }

  /** Sound device: the header points at the free chain, the chain runs k, k + 1, ... to the last
      block and every block on it is as formatted; directory and file blocks in use link to no
      block but a later one in use. */
  ghost predicate Inv(d: seq<Block>) {
    && 2 <= |d| <= MAX_BLOCKS
    && 2 <= FirstFree(d) && (Word(d[0], FREECHAIN) < |d| || Word(d[0], FREECHAIN) == |d| == 2)
    && Word(d[0], LAST) == 0 && Id(d[0]) != META_ID
    && (forall i {:trigger IsFreeAt(d, i)} | FirstFree(d) <= i < |d| :: IsFreeAt(d, i))
    && (forall i {:trigger LinkOk(d, i)} | 1 <= i < FirstFree(d) && IsMeta(d[i]) :: LinkOk(d, i))
  }

  /** Block i is as formatBlock left it, linked to its successor. */
  predicate IsFreeAt(d: seq<Block>, i: nat)
    requires i < |d|
  {
    d[i] == FreeBlock(Link(|d|, i))
  }

  predicate LinkOk(d: seq<Block>, i: nat)
    requires 0 < i < |d|
  {
    Word(d[i], LAST) == 0 || i < Word(d[i], LAST) < FirstFree(d)
  }

  /** takeFreeBlock (src/fs/clothesfs.cpp:277-298): the head of the chain, 0 when it is empty. */
  function Take(d: seq<Block>): (r: (seq<Block>, nat))
    requires |d| > 0
    ensures |r.0| == |d|
  {
    var head := Word(d[0], FREECHAIN);
    if Slot(head) >= |d| then (d, 0)
    else (d[0 := SetWord(d[0], FREECHAIN, Word(d[Slot(head)], LAST))], head)
  }

  /** r is d with the header changed so that the chain starts at k. */
  ghost predicate ChainMoved(d: seq<Block>, r: seq<Block>, k: nat)
    requires |d| > 0
  {
    |r| == |d| && FirstFree(r) == k && forall i | 0 < i < |d| :: r[i] == d[i]
  }

  lemma TakeExact(d: seq<Block>)
    requires Inv(d)
    ensures var (r, block) := Take(d);
      && Inv(r)
      && block == (if FirstFree(d) < |d| then FirstFree(d) else 0)
      && ChainMoved(d, r, if FirstFree(d) < |d| then FirstFree(d) + 1 else |d|)
  {
    var head := Word(d[0], FREECHAIN);
    var (r, block) := Take(d);
    WordSame(d[0], r[0], LAST);
    if 0 < head < |d| {
      assert IsFreeAt(d, head);
    }
    forall i | FirstFree(r) <= i < |r| ensures IsFreeAt(r, i) { assert IsFreeAt(d, i); }
    forall i | 1 <= i < FirstFree(r) && IsMeta(r[i]) ensures LinkOk(r, i) {
      if i < FirstFree(d) { assert LinkOk(d, i); }
    }
  }

  // ------------------------------------------------------------------ writing blocks in use

  /** Overwriting a block in use by one whose link is 0 or sound keeps the device sound. */
  lemma PutInv(d: seq<Block>, i: nat, b: Block)
    requires Inv(d) && 1 <= i < FirstFree(d)
    requires IsMeta(b) ==> Word(b, LAST) == 0 || i < Word(b, LAST) < FirstFree(d)
    ensures Inv(d[i := b]) && FirstFree(d[i := b]) == FirstFree(d)
  {
    var r := d[i := b];
    forall j | FirstFree(r) <= j < |r| ensures IsFreeAt(r, j) { assert IsFreeAt(d, j); }
    forall j | 1 <= j < FirstFree(r) && IsMeta(r[j]) ensures LinkOk(r, j) {
      if j != i { assert LinkOk(d, j); }
    }
  }

  /** initMeta (src/fs/clothesfs.cpp:244-256) and initData (258-275). */
  function MetaBlock(t: Byte): (b: Block)
    ensures Id(b) == META_ID && b[2] == t && Word(b, LAST) == 0
  {
    var b := Zeros()[0 := META_ID][2 := t];
    WordSame(Zeros(), b, LAST);
    ZeroWord(LAST);
    b
  }

  function DataBlock(): (b: Block)
    ensures Id(b) == PAYLOAD_ID && b[2] == PAYLOAD_USED
  {
    Zeros()[0 := 0x42][1 := 0x42][2 := PAYLOAD_USED]
  }

  lemma ZeroWord(at: nat)
    requires at + 4 <= BS
    ensures Word(Zeros(), at) == 0
  {
    DecodeZero(Zeros()[at..at + 4]);
  }

  /** Where addToMeta starts to look: 12 plus the word at 12, rounded up, in 32 bits. */
  function ScanStart(b: Block): (p: nat)
    ensures p % 4 == 0
  {
    var p := Round4(12 + Word(b, 12));
    if p < TWO32 then p else p - TWO32
  }

  /** The first zero word from p on, below the link word. */
  function FindZero(b: Block, p: nat): (r: Option<nat>)
    requires p % 4 == 0
    ensures r.Some? ==> p <= r.value && r.value % 4 == 0 && r.value + 4 <= LAST && Word(b, r.value) == 0
    decreases BS - p
  {
    if p >= LAST then None
    else if Word(b, p) == 0 then Some(p)
    else FindZero(b, p + 4)
  }

  /** No word in front of the one found is zero. */
  lemma {:induction false} FindZeroFirst(b: Block, p: nat, q: nat)
    requires p % 4 == 0 && q % 4 == 0 && p <= q < LAST && Word(b, q) == 0
    ensures FindZero(b, p).Some? && FindZero(b, p).value <= q
    decreases BS - p
  {
    if p < q && Word(b, p) != 0 {
      FindZeroFirst(b, p + 4, q);
    }
  }

  /** addToMeta (src/fs/clothesfs.cpp:359-417): put the entry into the first zero word, in this
      block or in one of its continuations; a continuation is added when all are full. */
  function AddToMeta(d: seq<Block>, index: nat, entry: nat, t: Byte): (r: (seq<Block>, bool))
    requires Inv(d) && (t == META_DIR || t == META_FILE)
    ensures |r.0| == |d|
    decreases |d| - FirstFree(d), |d| - Slot(index), 1
  {
    var i := Slot(index);
    if i >= |d| then (d, false)
    else
      var b := d[i];
      if Id(b) != META_ID || BaseType(b[2]) != t then (d, false)
      else
        var at := FindZero(b, ScanStart(b));
        if at.Some? then (d[i := SetWord(b, at.value, entry)], true)
        else
          UseOnly(d, i);
          var next := Word(b, LAST);
          if next != 0 then AddToMeta(d, next, entry, t)
          else Extend(d, i, entry, t)
  }

  /** A block that passes the checks of addToMeta is in use, and its link leads further on. */
  lemma UseOnly(d: seq<Block>, i: nat)
    requires Inv(d) && i < |d| && Id(d[i]) == META_ID
    requires BaseType(d[i][2]) == META_DIR || BaseType(d[i][2]) == META_FILE
    ensures 1 <= i < FirstFree(d) && IsMeta(d[i]) && LinkOk(d, i)
  {
    assert i >= FirstFree(d) ==> IsFreeAt(d, i);
  }

  /** The end of addToMeta: a free block becomes the continuation of block i. */
  function Extend(d: seq<Block>, i: nat, entry: nat, t: Byte): (r: (seq<Block>, bool))
    requires Inv(d) && (t == META_DIR || t == META_FILE)
    requires 1 <= i < FirstFree(d) && IsMeta(d[i]) && Word(d[i], LAST) == 0
    ensures |r.0| == |d|
    decreases |d| - FirstFree(d), |d| - i, 0
  {
    TakeExact(d);
    var (q, next) := Take(d);
    if next == 0 then (q, false)
    else
      ExtendInv(q, i, next, t);
      AddToMeta(Continued(q, i, next, t), next, entry, t)
  }

  function ContType(t: Byte): (r: Byte) {
    if t == META_FILE then META_FILE_CONT else META_DIR_CONT
  }

  function Continued(d: seq<Block>, i: nat, next: nat, t: Byte): (r: seq<Block>)
    requires i < |d| && next < |d|
    ensures |r| == |d|
  {
    d[i := SetWord(d[i], LAST, next)][next := MetaBlock(ContType(t))]
  }

  lemma ExtendInv(d: seq<Block>, i: nat, next: nat, t: Byte)
    requires Inv(d) && 1 <= i < next < FirstFree(d)
    ensures Inv(Continued(d, i, next, t)) && FirstFree(Continued(d, i, next, t)) == FirstFree(d)
  {
    PutInv(d, i, SetWord(d[i], LAST, next));
    PutInv(d[i := SetWord(d[i], LAST, next)], next, MetaBlock(ContType(t)));
  }

  /** r came from d by calls that took blocks off the chain and wrote blocks in use only. */
  ghost predicate Grown(d: seq<Block>, r: seq<Block>)
    requires |d| > 0
  {
    && |r| == |d| && Inv(r)
    && FirstFree(d) <= FirstFree(r)
    && forall i | FirstFree(r) <= i < |d| :: r[i] == d[i]
  }

  lemma GrownTrans(d: seq<Block>, q: seq<Block>, r: seq<Block>)
    requires |d| > 0 && Grown(d, q) && Grown(q, r)
    ensures Grown(d, r)
  {
  }

  lemma TakeGrown(d: seq<Block>)
    requires Inv(d)
    ensures Grown(d, Take(d).0)
    ensures var (r, block) := Take(d);
      block != 0 ==> block == FirstFree(d) && FirstFree(r) == block + 1 && block < |d|
  {
    TakeExact(d);
  }

  lemma PutGrown(d: seq<Block>, i: nat, b: Block)
    requires Inv(d) && 1 <= i < FirstFree(d)
    requires IsMeta(b) ==> Word(b, LAST) == 0 || i < Word(b, LAST) < FirstFree(d)
    ensures Grown(d, d[i := b]) && FirstFree(d[i := b]) == FirstFree(d)
  {
    PutInv(d, i, b);
  }

  /** addToMeta keeps the device sound, however the continuation blocks are filled. */
  lemma {:induction false} AddToMetaGrown(d: seq<Block>, index: nat, entry: nat, t: Byte)
    requires Inv(d) && (t == META_DIR || t == META_FILE)
    ensures Grown(d, AddToMeta(d, index, entry, t).0)
    decreases |d| - FirstFree(d), |d| - Slot(index), 1
  {
    var i := Slot(index);
    if i < |d| && Id(d[i]) == META_ID && BaseType(d[i][2]) == t {
      var b := d[i];
      UseOnly(d, i);
      var at := FindZero(b, ScanStart(b));
      if at.Some? {
        WordSame(b, SetWord(b, at.value, entry), LAST);
        PutGrown(d, i, SetWord(b, at.value, entry));
      } else if Word(b, LAST) != 0 {
        AddToMetaGrown(d, Word(b, LAST), entry, t);
      } else {
        ExtendGrown(d, i, entry, t);
      }
    }
  }

  lemma {:induction false} ExtendGrown(d: seq<Block>, i: nat, entry: nat, t: Byte)
    requires Inv(d) && (t == META_DIR || t == META_FILE)
    requires 1 <= i < FirstFree(d) && IsMeta(d[i]) && Word(d[i], LAST) == 0
    ensures Grown(d, Extend(d, i, entry, t).0)
    decreases |d| - FirstFree(d), |d| - i, 0
  {
    TakeGrown(d);
    var (q, next) := Take(d);
    if next != 0 {
      var r := Continued(q, i, next, t);
      ExtendInv(q, i, next, t);
      assert Grown(q, r);
      AddToMetaGrown(r, next, entry, t);
      GrownTrans(d, q, r);
      GrownTrans(d, r, AddToMeta(r, next, entry, t).0);
    }
  }

  // ------------------------------------------------------------------ files and directories

  /** The name part of updateMeta (src/fs/clothesfs.cpp:473-483): 8-byte size, name length, name. */
  function Named(b: Block, name: seq<Byte>, size: nat): (r: Block)
    requires 16 + |name| <= LAST
    ensures forall i | 0 <= i < BS && !(4 <= i < 16 + |name|) :: r[i] == b[i]
    ensures r[16..16 + |name|] == name && Word(r, 12) == |name| && r[4..12] == Encode(size, 8)
  {
    var s := SetWord(Splice(b, 4, Encode(size, 8)), 12, |name|);
    var r := Splice(s, 16, name);
    WordSame(s, r, 12);
    r
  }

  /** A name as addFile and addDir get it: no NUL, and it leaves the link word alone. */
  predicate NameOk(name: seq<Byte>) {
    16 + |name| <= LAST && forall i | 0 <= i < |name| :: name[i] != 0
  }

  function Payload(contents: seq<Byte>): (b: Block)
    requires |contents| <= BS - 4
    ensures Id(b) == PAYLOAD_ID && b[2] == PAYLOAD_USED && b[4..4 + |contents|] == contents
    ensures forall i | 4 + |contents| <= i < BS :: b[i] == 0
  {
    Splice(DataBlock(), 4, contents)
  }

  /** addData (src/fs/clothesfs.cpp:419-455): one block per 508 bytes, at least one. */
  function AddData(d: seq<Block>, meta: nat, contents: seq<Byte>): (r: (seq<Block>, bool))
    requires Inv(d)
    ensures |r.0| == |d|
    decreases |contents|
  {
    TakeGrown(d);
    var (q, block) := Take(d);
    if block == 0 then (q, false)
    else
      AddToMetaGrown(q, meta, block, META_FILE);
      var (s, ok) := AddToMeta(q, meta, block, META_FILE);
      if !ok then (s, false)
      else
        var n := if |contents| <= BS - 4 then |contents| else BS - 4;
        PutInv(s, block, Payload(contents[..n]));
        var r := s[block := Payload(contents[..n])];
        if n < |contents| then AddData(r, meta, contents[n..]) else (r, true)
  }

  /** The common start of addFile and addDir: a block, entered into its parent, and named. */
  function AddObject(d: seq<Block>, parent: nat, name: seq<Byte>, t: Byte, size: nat): (r: (seq<Block>, nat))
    requires Inv(d) && NameOk(name) && (t == META_DIR || t == META_FILE)
    ensures |r.0| == |d|
  {
    if parent == 0 then (d, 0)
    else
      TakeGrown(d);
      var (q, block) := Take(d);
      if block == 0 then (q, 0)
      else
        AddToMetaGrown(q, parent, block, META_DIR);
        var (s, ok) := AddToMeta(q, parent, block, META_DIR);
        if !ok then (s, 0) else (s[block := Named(MetaBlock(t), name, size)], block)
  }

  lemma AddObjectGrown(d: seq<Block>, parent: nat, name: seq<Byte>, t: Byte, size: nat)
    requires Inv(d) && NameOk(name) && (t == META_DIR || t == META_FILE)
    ensures Grown(d, AddObject(d, parent, name, t, size).0)
  {
    if parent != 0 {
      TakeGrown(d);
      var (q, block) := Take(d);
      if block != 0 {
        AddToMetaGrown(q, parent, block, META_DIR);
        var (s, ok) := AddToMeta(q, parent, block, META_DIR);
        GrownTrans(d, q, s);
        if ok {
          var b := Named(MetaBlock(t), name, size);
          WordSame(MetaBlock(t), b, LAST);
          PutGrown(s, block, b);
          GrownTrans(d, s, s[block := b]);
        }
      }
    }
  }

  lemma {:induction false} AddDataGrown(d: seq<Block>, meta: nat, contents: seq<Byte>)
    requires Inv(d)
    ensures Grown(d, AddData(d, meta, contents).0)
    decreases |contents|
  {
    TakeGrown(d);
    var (q, block) := Take(d);
    if block != 0 {
      AddToMetaGrown(q, meta, block, META_FILE);
      var (s, ok) := AddToMeta(q, meta, block, META_FILE);
      GrownTrans(d, q, s);
      if ok {
        var n := if |contents| <= BS - 4 then |contents| else BS - 4;
        var r := s[block := Payload(contents[..n])];
        PutGrown(s, block, Payload(contents[..n]));
        GrownTrans(d, s, r);
        if n < |contents| {
          AddDataGrown(r, meta, contents[n..]);
          GrownTrans(d, r, AddData(r, meta, contents[n..]).0);
        }
      }
    }
  }

  /** addFile and addDir (src/fs/clothesfs.cpp:492-539). */
  function AddFile(d: seq<Block>, parent: nat, name: seq<Byte>, contents: seq<Byte>): (r: (seq<Block>, bool))
    requires Inv(d) && NameOk(name)
    ensures |r.0| == |d|
  {
    AddObjectGrown(d, parent, name, META_FILE, |contents|);
    var (q, block) := AddObject(d, parent, name, META_FILE, |contents|);
    if block == 0 then (q, false) else AddData(q, block, contents)
  }

  function AddDir(d: seq<Block>, parent: nat, name: seq<Byte>): (r: (seq<Block>, bool))
    requires Inv(d) && NameOk(name)
    ensures |r.0| == |d|
  {
    var (q, block) := AddObject(d, parent, name, META_DIR, 0);
    (q, block != 0)
  }

  // ------------------------------------------------------------------ runs

  datatype Op = FileOp(parent: nat, name: seq<Byte>, contents: seq<Byte>) | DirOp(parent: nat, name: seq<Byte>)

  function Step(d: seq<Block>, op: Op): (r: seq<Block>)
    requires Inv(d) && NameOk(op.name)
    ensures |r| == |d|
  {
    match op
    case FileOp(parent, name, contents) => AddFile(d, parent, name, contents).0
    case DirOp(parent, name) => AddDir(d, parent, name).0
  }

  lemma StepGrown(d: seq<Block>, op: Op)
    requires Inv(d) && NameOk(op.name)
    ensures Grown(d, Step(d, op))
  {
    match op
    case FileOp(parent, name, contents) =>
      AddObjectGrown(d, parent, name, META_FILE, |contents|);
      var (q, block) := AddObject(d, parent, name, META_FILE, |contents|);
      if block != 0 {
        AddDataGrown(q, block, contents);
        GrownTrans(d, q, AddData(q, block, contents).0);
      }
    case DirOp(parent, name) =>
      AddObjectGrown(d, parent, name, META_DIR, 0);
  }

  ghost predicate Run(d: seq<Block>, ops: seq<Op>, r: seq<Block>)
    decreases |ops|
  {
    if ops == [] then r == d
    else Inv(d) && NameOk(ops[0].name) && Run(Step(d, ops[0]), ops[1..], r)
  }

  /** On every run of addFile and addDir, with any parents and any contents: the free chain is
      still k, k + 1, ... to the end of the device, each block on it as formatted; the chain only
      loses blocks from its front, and no block that is still on it was written. */
  lemma {:induction false} RunGrown(d: seq<Block>, ops: seq<Op>, r: seq<Block>)
    requires Inv(d) && Run(d, ops, r)
    ensures Grown(d, r)
    decreases |ops|
  {
    if ops != [] {
      StepGrown(d, ops[0]);
      RunGrown(Step(d, ops[0]), ops[1..], r);
      GrownTrans(d, Step(d, ops[0]), r);
    }
  }

  /** The chain as the sequence of its blocks, followed from the header. */
  function Chain(d: seq<Block>, head: nat, fuel: nat): (r: seq<nat>)
    decreases fuel
  {
    if fuel == 0 || head == 0 || Slot(head) >= |d| then []
    else [head] + Chain(d, Word(d[Slot(head)], LAST), fuel - 1)
  }

  /** Following the links from a block of the chain visits it and all later blocks once each and
      ends at 0: the chain is an acyclic list of distinct free blocks. */
  lemma {:induction false} ChainExact(d: seq<Block>, k: nat, fuel: nat)
    requires Inv(d) && FirstFree(d) <= k < |d| && fuel > |d| - k
    ensures Chain(d, k, fuel) == Interval(k, |d|)
    ensures forall j | k <= j < |d| :: Id(d[j]) == META_ID && d[j][2] == META_FREE
  {
    ChainFrom(d, k, fuel, |d|);
    forall j | k <= j < |d| ensures Id(d[j]) == META_ID && d[j][2] == META_FREE { ChainLink(d, j); }
  }

  lemma {:induction false} ChainFrom(d: seq<Block>, k: nat, fuel: nat, n: nat)
    requires Inv(d) && FirstFree(d) <= k < n == |d| && fuel > n - k
    ensures Chain(d, k, fuel) == Interval(k, n)
    decreases n - k
  {
    ChainLink(d, k);
    if k + 1 < n {
      ChainFrom(d, k + 1, fuel - 1, n);
      ChainStep(d, k, fuel, k + 1, Interval(k + 1, n));
    } else {
      ChainStep(d, k, fuel, 0, []);
      assert Interval(k, n) == [k];
    }
  }

  lemma ChainStep(d: seq<Block>, k: nat, fuel: nat, next: nat, rest: seq<nat>)
    requires fuel > 0 && 0 < k < |d| && Slot(k) == k && Word(d[k], LAST) == next && Chain(d, next, fuel - 1) == rest
    ensures Chain(d, k, fuel) == [k] + rest
  {
  }

  lemma ChainLink(d: seq<Block>, k: nat)
    requires Inv(d) && FirstFree(d) <= k < |d|
    ensures Slot(k) == k && Word(d[k], LAST) == Link(|d|, k) && Id(d[k]) == META_ID && d[k][2] == META_FREE
  {
    assert IsFreeAt(d, k);
  }

  // ------------------------------------------------------------------ format

  /** What the bytes b start with; the rest of them is zero. */
  predicate Spells(b: seq<Byte>, s: seq<Byte>) {
    |s| <= |b| && b[..|s|] == s && forall i | |s| <= i < |b| :: b[i] == 0
  }

  function Nulls(n: nat): (s: seq<Byte>)
    ensures |s| == n && forall i | 0 <= i < n :: s[i] == 0
  {
    seq(n, _ => 0)
  }

  const MAGIC: seq<Byte> := [0x00, 0x42, 0x00, 0x41]

  /** The volume name: n bytes at most, up to the first NUL. */
  function Label(volume: seq<Byte>, n: nat): (r: seq<Byte>)
    ensures |r| <= n && r <= volume && forall i | 0 <= i < |r| :: r[i] != 0
    ensures |r| < n && |r| < |volume| ==> volume[|r|] == 0
  {
    if n == 0 || volume == [] || volume[0] == 0 then [] else [volume[0]] + Label(volume[1..], n - 1)
  }

  /** The identifying part of the header: jump area, magic, block size, flags and group index, volume
      identifier, size of the device, volume name. */
  function IdentityBytes(id: seq<Byte>, title: seq<Byte>, size: nat): (s: seq<Byte>)
    requires |id| == 8 && |title| <= 32
    ensures |s| == 88
  {
    Nulls(32) + MAGIC + Encode(BS, 2) + Nulls(2) + id + Encode(size, 4) + Nulls(4) + title + Nulls(32 - |title|)
  }

  /** The whole header: the root's block and the used blocks, no journals, the first free block. */
  function HeaderBytes(id: seq<Byte>, title: seq<Byte>, size: nat, freechain: nat): (s: seq<Byte>)
    requires |id| == 8 && |title| <= 32
    ensures |s| == FREECHAIN + 4
  {
    IdentityBytes(id, title, size) + Encode(1, 4) + Encode(2, 4) + Encode(0, 4) + Encode(0, 4) + Encode(freechain, 4)
  }

  /** What detect (src/fs/clothesfs.cpp:64-82) reads from the header: whether the magic is there, and the
      block size. */
  function Detected(h: Block): (r: (bool, nat)) {
    (h[32..36] == MAGIC, Decode(h[36..38]))
  }

  /** format (src/fs/clothesfs.cpp:159-242) on a device of n blocks: the header, given by its
      bytes, the root directory named "/", and the free chain. */
  predicate HeaderOk(h: Block) {
    Id(h) == 0 && Word(h, FREECHAIN) == 2 && Word(h, LAST) == 0
  }

  lemma Starts(h: Block, s: seq<Byte>, x: seq<Byte>)
    requires |s| + |x| <= BS && h[..|s| + |x|] == s + x
    ensures h[..|s|] == s && h[|s|..|s| + |x|] == x
  {
    assert h[..|s|] == h[..|s| + |x|][..|s|];
  }

  /** The first fields of a header that starts with these bytes. */
  lemma FirstFields(h: Block, id: seq<Byte>, title: seq<Byte>, size: nat)
    requires |id| == 8 && |title| <= 32 && h[..88] == IdentityBytes(id, title, size)
    ensures h[0] == h[1] == 0 && h[32..36] == MAGIC && h[36..38] == Encode(BS, 2)
  {
    var m := Nulls(32) + MAGIC;
    var b := m + Encode(BS, 2);
    var v := b + Nulls(2) + id;
    var z := v + Encode(size, 4) + Nulls(4);
    Starts(h, z + title, Nulls(32 - |title|));
    Starts(h, z, title);
    Starts(h, v + Encode(size, 4), Nulls(4));
    Starts(h, v, Encode(size, 4));
    Starts(h, b + Nulls(2), id);
    Starts(h, b, Nulls(2));
    Starts(h, m, Encode(BS, 2));
    Starts(h, Nulls(32), MAGIC);
    assert h[0] == h[..32][0] && h[1] == h[..32][1];
  }

  /** A header of format is sound, and detect knows it and its block size. */
  lemma HeaderSound(h: Block, id: seq<Byte>, title: seq<Byte>, size: nat)
    requires |id| == 8 && |title| <= 32 && Spells(h, HeaderBytes(id, title, size, 2))
    ensures HeaderOk(h) && Detected(h) == (true, BS)
  {
    var i := IdentityBytes(id, title, size);
    var u := i + Encode(1, 4) + Encode(2, 4);
    Starts(h, u + Encode(0, 4) + Encode(0, 4), Encode(2, 4));
    Starts(h, u + Encode(0, 4), Encode(0, 4));
    Starts(h, u, Encode(0, 4));
    Starts(h, i + Encode(1, 4), Encode(2, 4));
    Starts(h, i, Encode(1, 4));
    FirstFields(h, id, title, size);
    HeaderWords(h);
  }

  lemma HeaderWords(h: Block)
    requires h[36..38] == Encode(BS, 2) && h[FREECHAIN..FREECHAIN + 4] == Encode(2, 4)
    requires forall i | FREECHAIN + 4 <= i < BS :: h[i] == 0
    ensures Word(h, FREECHAIN) == 2 && Word(h, LAST) == 0 && Decode(h[36..38]) == BS
  {
    Pow256Values();
    DecodeEncode(2, 4);
    DecodeEncode(BS, 2);
    DecodeZero(h[LAST..LAST + 4]);
  }

  function Formatted(n: nat, h: Block): (d: seq<Block>)
    requires 2 <= n <= MAX_BLOCKS
    ensures |d| == n
  {
    [h, Named(MetaBlock(META_DIR), [0x2F], 0)] + seq(n - 2, i requires 0 <= i < n - 2 => FreeBlock(Link(n, i + 2)))
  }

  lemma FormatInv(n: nat, h: Block)
    requires 2 <= n <= MAX_BLOCKS && HeaderOk(h)
    ensures Inv(Formatted(n, h)) && FirstFree(Formatted(n, h)) == 2
  {
    var d := Formatted(n, h);
    WordSame(MetaBlock(META_DIR), d[1], LAST);
    assert LinkOk(d, 1);
  }
}
