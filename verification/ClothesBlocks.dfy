/** The blocks that takeFreeBlock hands out during addFile and addDir (src/fs/clothesfs.cpp:277-298,
    359-539), in order: meta blocks, data blocks and continuation blocks alike. */
module ClothesBlocks {
  import opened Bytes
  import opened Device
  import opened ClothesModel

  function Taken(block: nat): (r: seq<nat>) {
    if block == 0 then [] else [block]
  }

  /** The blocks addToMeta takes: continuation blocks only. */
  function MetaBlocks(d: seq<Block>, index: nat, entry: nat, t: Byte): (r: seq<nat>)
    requires Inv(d) && (t == META_DIR || t == META_FILE)
    decreases |d| - FirstFree(d), |d| - Slot(index), 1
  {
    var i := Slot(index);
    if i >= |d| then []
    else
      var b := d[i];
      if Id(b) != META_ID || BaseType(b[2]) != t || FindZero(b, ScanStart(b)).Some? then []
      else
        UseOnly(d, i);
        if Word(b, LAST) != 0 then MetaBlocks(d, Word(b, LAST), entry, t) else ExtendBlocks(d, i, entry, t)
  }

  function ExtendBlocks(d: seq<Block>, i: nat, entry: nat, t: Byte): (r: seq<nat>)
    requires Inv(d) && (t == META_DIR || t == META_FILE)
    requires 1 <= i < FirstFree(d) && IsMeta(d[i]) && Word(d[i], LAST) == 0
    decreases |d| - FirstFree(d), |d| - i, 0
  {
    TakeExact(d);
    var (q, next) := Take(d);
    if next == 0 then []
    else
      ExtendInv(q, i, next, t);
      [next] + MetaBlocks(Continued(q, i, next, t), next, entry, t)
  }

  /** addData: each data block, and what entering it takes. */
  function DataBlocks(d: seq<Block>, meta: nat, contents: seq<Byte>): (r: seq<nat>)
    requires Inv(d)
    decreases |contents|
  {
    TakeGrown(d);
    var (q, block) := Take(d);
    if block == 0 then []
    else
      AddToMetaGrown(q, meta, block, META_FILE);
      var (s, ok) := AddToMeta(q, meta, block, META_FILE);
      var taken := [block] + MetaBlocks(q, meta, block, META_FILE);
      if !ok || |contents| <= BS - 4 then taken
      else
        PutInv(s, block, Payload(contents[..BS - 4]));
        taken + DataBlocks(s[block := Payload(contents[..BS - 4])], meta, contents[BS - 4..])
  }

  /** The common start of addFile and addDir. */
  function ObjectBlocks(d: seq<Block>, parent: nat): (r: seq<nat>)
    requires Inv(d)
  {
    if parent == 0 then []
    else
      TakeGrown(d);
      var (q, block) := Take(d);
      if block == 0 then [] else [block] + MetaBlocks(q, parent, block, META_DIR)
  }

  function StepBlocks(d: seq<Block>, op: Op): (r: seq<nat>)
    requires Inv(d) && NameOk(op.name)
  {
    match op
    case FileOp(parent, name, contents) =>
      AddObjectGrown(d, parent, name, META_FILE, |contents|);
      var (q, block) := AddObject(d, parent, name, META_FILE, |contents|);
      ObjectBlocks(d, parent) + (if block == 0 then [] else DataBlocks(q, block, contents))
    case DirOp(parent, name) => ObjectBlocks(d, parent)
  }

  // ------------------------------------------------------------------ exactly the front of the chain

  lemma {:induction false} MetaBlocksExact(d: seq<Block>, index: nat, entry: nat, t: Byte)
    requires Inv(d) && (t == META_DIR || t == META_FILE)
    ensures MetaBlocks(d, index, entry, t) == Interval(FirstFree(d), FirstFree(AddToMeta(d, index, entry, t).0))
    decreases |d| - FirstFree(d), |d| - Slot(index), 1
  {
    var i := Slot(index);
    if i < |d| && Id(d[i]) == META_ID && BaseType(d[i][2]) == t {
      var b := d[i];
      UseOnly(d, i);
      var at := FindZero(b, ScanStart(b));
      if at.Some? {
        WordSame(b, SetWord(b, at.value, entry), LAST);
        PutInv(d, i, SetWord(b, at.value, entry));
      } else if Word(b, LAST) != 0 {
        MetaBlocksExact(d, Word(b, LAST), entry, t);
      } else {
        ExtendBlocksExact(d, i, entry, t);
      }
    }
  }

  lemma {:induction false} ExtendBlocksExact(d: seq<Block>, i: nat, entry: nat, t: Byte)
    requires Inv(d) && (t == META_DIR || t == META_FILE)
    requires 1 <= i < FirstFree(d) && IsMeta(d[i]) && Word(d[i], LAST) == 0
    ensures ExtendBlocks(d, i, entry, t) == Interval(FirstFree(d), FirstFree(Extend(d, i, entry, t).0))
    decreases |d| - FirstFree(d), |d| - i, 0
  {
    TakeExact(d);
    var (q, next) := Take(d);
    if next != 0 {
      ExtendInv(q, i, next, t);
      ContinuedExact(Continued(q, i, next, t), next, entry, t);
    }
  }

  /** A block just taken, and what entering into it takes. */
  lemma {:induction false} ContinuedExact(c: seq<Block>, next: nat, entry: nat, t: Byte)
    requires Inv(c) && (t == META_DIR || t == META_FILE) && FirstFree(c) == next + 1
    ensures [next] + MetaBlocks(c, next, entry, t) == Interval(next, FirstFree(AddToMeta(c, next, entry, t).0))
    decreases |c| - FirstFree(c), |c| - Slot(next), 2
  {
    MetaBlocksExact(c, next, entry, t);
    AddToMetaGrown(c, next, entry, t);
  }

  /** Taking a block and entering it, as addData, addFile and addDir begin. */
  lemma EnterExact(d: seq<Block>, index: nat, t: Byte)
    requires Inv(d) && (t == META_DIR || t == META_FILE) && Take(d).1 != 0
    ensures var (q, block) := Take(d);
      && Inv(q)
      && var s := AddToMeta(q, index, block, t).0;
      && Inv(s) && FirstFree(d) <= block < FirstFree(s) <= |d| == |s|
      && [block] + MetaBlocks(q, index, block, t) == Interval(FirstFree(d), FirstFree(s))
  {
    TakeExact(d);
    var (q, block) := Take(d);
    AddToMetaGrown(q, index, block, t);
    MetaBlocksExact(q, index, block, t);
  }

  lemma {:induction false} DataBlocksExact(d: seq<Block>, meta: nat, contents: seq<Byte>)
    requires Inv(d)
    ensures DataBlocks(d, meta, contents) == Interval(FirstFree(d), FirstFree(AddData(d, meta, contents).0))
    decreases |contents|, 0
  {
    TakeExact(d);
    var (q, block) := Take(d);
    if block != 0 {
      EnterExact(d, meta, META_FILE);
      var (s, ok) := AddToMeta(q, meta, block, META_FILE);
      if ok {
        var n := if |contents| <= BS - 4 then |contents| else BS - 4;
        PutInv(s, block, Payload(contents[..n]));
        if n < |contents| {
          RestExact(s[block := Payload(contents[..n])], meta, contents[n..], FirstFree(d));
        }
      }
    }
  }

  /** The blocks of the rest follow those taken from k on. */
  lemma {:induction false} RestExact(d: seq<Block>, meta: nat, contents: seq<Byte>, k: nat)
    requires Inv(d) && k <= FirstFree(d)
    ensures Interval(k, FirstFree(d)) + DataBlocks(d, meta, contents)
         == Interval(k, FirstFree(AddData(d, meta, contents).0))
    decreases |contents|, 1
  {
    DataBlocksExact(d, meta, contents);
    AddDataGrown(d, meta, contents);
    IntervalJoin(k, FirstFree(d), FirstFree(AddData(d, meta, contents).0));
  }

  lemma ObjectBlocksExact(d: seq<Block>, parent: nat, name: seq<Byte>, t: Byte, size: nat)
    requires Inv(d) && NameOk(name) && (t == META_DIR || t == META_FILE)
    ensures ObjectBlocks(d, parent) == Interval(FirstFree(d), FirstFree(AddObject(d, parent, name, t, size).0))
  {
    TakeExact(d);
    var (q, block) := Take(d);
    if parent != 0 && block != 0 {
      EnterExact(d, parent, META_DIR);
      var b := Named(MetaBlock(t), name, size);
      WordSame(MetaBlock(t), b, LAST);
      PutInv(AddToMeta(q, parent, block, META_DIR).0, block, b);
    }
  }

  lemma StepBlocksExact(d: seq<Block>, op: Op)
    requires Inv(d) && NameOk(op.name)
    ensures StepBlocks(d, op) == Interval(FirstFree(d), FirstFree(Step(d, op)))
  {
    match op
    case FileOp(parent, name, contents) =>
      ObjectBlocksExact(d, parent, name, META_FILE, |contents|);
      AddObjectGrown(d, parent, name, META_FILE, |contents|);
      var (q, block) := AddObject(d, parent, name, META_FILE, |contents|);
      if block != 0 { RestExact(q, block, contents, FirstFree(d)); }
    case DirOp(parent, name) =>
      ObjectBlocksExact(d, parent, name, META_DIR, 0);
  }

  // ------------------------------------------------------------------ runs

  /** All blocks handed out during a run. */
  function RunBlocks(d: seq<Block>, ops: seq<Op>): (r: seq<nat>)
    requires Inv(d) && forall i | 0 <= i < |ops| :: NameOk(ops[i].name)
    decreases |ops|
  {
    if ops == [] then []
    else
      StepGrown(d, ops[0]);
      StepBlocks(d, ops[0]) + RunBlocks(Step(d, ops[0]), ops[1..])
  }

  /** Over every run, the blocks handed out, whatever for and also by calls that fail, are exactly the
      numbers from the first free block at its start up to the first free block at its end, once each
      and in order. */
  lemma {:induction false} RunBlocksExact(d: seq<Block>, ops: seq<Op>, r: seq<Block>)
    requires Inv(d) && Run(d, ops, r) && forall i | 0 <= i < |ops| :: NameOk(ops[i].name)
    ensures |r| > 0 && RunBlocks(d, ops) == Interval(FirstFree(d), FirstFree(r))
    decreases |ops|
  {
    if ops != [] {
      var q := Step(d, ops[0]);
      StepGrown(d, ops[0]);
      StepBlocksExact(d, ops[0]);
      RunBlocksExact(q, ops[1..], r);
      RunGrown(q, ops[1..], r);
      IntervalJoin(FirstFree(d), FirstFree(q), FirstFree(r));
    }
  }

  /** So no block is ever handed out twice, and none that was in use before the run. */
  lemma HandedOutOnce(d: seq<Block>, ops: seq<Op>, r: seq<Block>, i: nat, j: nat)
    requires Inv(d) && Run(d, ops, r) && forall k | 0 <= k < |ops| :: NameOk(ops[k].name)
    requires i < j < |RunBlocks(d, ops)|
    ensures FirstFree(d) <= RunBlocks(d, ops)[i] < RunBlocks(d, ops)[j] < |d|
  {
    RunBlocksExact(d, ops, r);
    RunGrown(d, ops, r);
  }
}
