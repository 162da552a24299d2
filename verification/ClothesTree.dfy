/** The tree of files and directories that the blocks of ClothesFS spell out, how addFile and
    addDir extend it, and what the iterator shows of it (src/fs/clothesfs.cpp:541-706). */
module ClothesTree {
  import opened Basics
  import opened Bytes
  import opened Device
  import opened ClothesModel

  /** An object, by its meta block: a directory with the blocks of its entries, or a file with its
      data blocks in order. */
  datatype Obj =
    | Dir(name: seq<Byte>, children: seq<nat>)
    | File(name: seq<Byte>, contents: seq<Byte>, data: seq<nat>)

  type Tree = map<nat, Obj>

  const CHUNK := 508  // the contents bytes of a data block

  /** Where the entries of a block with a name of n bytes start: the reader's first slot. */
  function EntryStart(n: nat): (p: nat)
    ensures p % 4 == 0 && 16 + n <= p < 20 + n
  {
    Round4(16 + n)
  }

  /** b is the block of an object of type t with this name and these entries, room left zero. */
  ghost predicate MetaOk(b: Block, t: Byte, name: seq<Byte>, entries: seq<nat>) {
    && Id(b) == META_ID && b[2] == t
    && name != [] && NameOk(name)
    && Word(b, 12) == |name| && b[16..16 + |name|] == name
    && EntryStart(|name|) + 4 * |entries| <= LAST
    && (forall i | 0 <= i < |entries| :: entries[i] != 0 && EntryAt(b, name, i) == entries[i])
    && (forall q | EntryStart(|name|) + 4 * |entries| <= q < LAST && q % 4 == 0 :: Word(b, q) == 0)
    && Word(b, LAST) == 0
  }

  function EntryAt(b: Block, name: seq<Byte>, i: nat): (v: nat)
    requires EntryStart(|name|) + 4 * i + 4 <= BS
  {
    Word(b, EntryStart(|name|) + 4 * i)
  }

  // ------------------------------------------------------------------ adding an entry

  lemma {:induction false} FirstZero(b: Block, p: nat, x: nat)
    requires p <= x && p % 4 == 0 && x % 4 == 0 && x + 4 <= LAST && Word(b, x) == 0
    requires forall q | p <= q < x && q % 4 == 0 :: Word(b, q) != 0
    ensures FindZero(b, p) == Some(x)
    decreases x - p
  {
    if p < x {
      FirstZero(b, p + 4, x);
    }
  }

  /** The scan starts one word before the first entry, on the last word of the name, which is not
      zero; so a name that is not empty is never overwritten. */
  lemma NameWord(b: Block, t: Byte, name: seq<Byte>, entries: seq<nat>)
    requires MetaOk(b, t, name, entries)
    ensures ScanStart(b) == EntryStart(|name|) - 4
    ensures Word(b, ScanStart(b)) != 0
  {
    var p := EntryStart(|name|) - 4;
    assert Round4(12 + |name|) == p;
    assert b[p] == name[p - 16] by { assert b[16..16 + |name|][p - 16] == b[p]; }
    DecodeZero(b[p..p + 4]);
    assert b[p..p + 4][0] == b[p];
  }

  /** With an empty name the scan starts on the length word itself and overwrites it. */
  lemma EmptyNameOverwritten(t: Byte, size: nat, entry: nat)
    requires t == META_DIR || t == META_FILE
    ensures var b := Named(MetaBlock(t), [], size);
      FindZero(b, ScanStart(b)) == Some(12) && (0 < entry < TWO32 ==> Word(SetWord(b, 12, entry), 12) != 0)
  {
  }

  /** The first entry of a new object overwrites its length word if and only if its name is empty. */
  lemma LengthOverwrittenIff(t: Byte, name: seq<Byte>, size: nat)
    requires (t == META_DIR || t == META_FILE) && NameOk(name) && EntryStart(|name|) <= LAST
    ensures var b := Named(MetaBlock(t), name, size);
      FindZero(b, ScanStart(b)) == Some(12) <==> name == []
  {
    if name == [] {
      EmptyNameOverwritten(t, size, 0);
    } else {
      NewMeta(t, name, size);
      NameWord(Named(MetaBlock(t), name, size), t, name, []);
    }
  }

  /** A name longer than 492 bytes ends in the link word, so that the block no longer says that it
      has no continuation; up to 492 bytes the link word is left alone. */
  lemma LinkSurvives(b: Block, name: seq<Byte>)
    requires Word(b, LAST) == 0 && 16 + |name| <= BS && forall i | 0 <= i < |name| :: name[i] != 0
    ensures Word(Splice(b, 16, name), LAST) == 0 <==> 16 + |name| <= LAST
  {
    var r: Block := Splice(b, 16, name);
    DecodeZero(b[LAST..LAST + 4]);
    DecodeZero(r[LAST..LAST + 4]);
    if 16 + |name| > LAST {
      assert r[LAST] == name[LAST - 16] by { assert r[16..16 + |name|][LAST - 16] == r[LAST]; }
      assert r[LAST..LAST + 4][0] == r[LAST];
    } else {
      WordSame(b, r, LAST);
    }
  }

  lemma EntryWord(b: Block, t: Byte, name: seq<Byte>, entries: seq<nat>, q: nat)
    requires MetaOk(b, t, name, entries) && q % 4 == 0
    requires EntryStart(|name|) <= q < EntryStart(|name|) + 4 * |entries|
    ensures Word(b, q) != 0
  {
    var i := (q - EntryStart(|name|)) / 4;
    assert q == EntryStart(|name|) + 4 * i;
    assert EntryAt(b, name, i) == entries[i];
  }

  /** addToMeta finds the slot behind the last entry. */
  lemma EntrySlot(b: Block, t: Byte, name: seq<Byte>, entries: seq<nat>)
    requires MetaOk(b, t, name, entries) && EntryStart(|name|) + 4 * |entries| + 4 <= LAST
    ensures FindZero(b, ScanStart(b)) == Some(EntryStart(|name|) + 4 * |entries|)
  {
    NameWord(b, t, name, entries);
    NoZeroBefore(b, t, name, entries);
    FirstZero(b, EntryStart(|name|) - 4, EntryStart(|name|) + 4 * |entries|);
  }

  lemma NoZeroBefore(b: Block, t: Byte, name: seq<Byte>, entries: seq<nat>)
    requires MetaOk(b, t, name, entries)
    ensures forall q | EntryStart(|name|) - 4 <= q < EntryStart(|name|) + 4 * |entries| && q % 4 == 0 :: Word(b, q) != 0
  {
    var s := EntryStart(|name|);
    NameWord(b, t, name, entries);
    forall q | s - 4 <= q < s + 4 * |entries| && q % 4 == 0 ensures Word(b, q) != 0 {
      if q >= s { EntryWord(b, t, name, entries, q); }
    }
  }

  lemma EntryAdded(b: Block, t: Byte, name: seq<Byte>, entries: seq<nat>, e: nat)
    requires MetaOk(b, t, name, entries) && EntryStart(|name|) + 4 * |entries| + 4 <= LAST && 0 < e < TWO32
    ensures MetaOk(SetWord(b, EntryStart(|name|) + 4 * |entries|, e), t, name, entries + [e])
  {
    var s, x := EntryStart(|name|), EntryStart(|name|) + 4 * |entries|;
    var r := SetWord(b, x, e);
    WordSame(b, r, 12);
    WordSame(b, r, LAST);
    assert r[16..16 + |name|] == b[16..16 + |name|];
    forall i | 0 <= i < |entries| + 1 ensures EntryAt(r, name, i) == (entries + [e])[i] {
      if i < |entries| {
        WordSame(b, r, s + 4 * i);
        assert EntryAt(b, name, i) == entries[i];
      }
    }
    forall q | s + 4 * |entries + [e]| <= q < LAST && q % 4 == 0 ensures Word(r, q) == 0 {
      WordSame(b, r, q);
    }
  }

  /** A new object has its name and no entries. */
  lemma NewMeta(t: Byte, name: seq<Byte>, size: nat)
    requires name != [] && NameOk(name) && EntryStart(|name|) <= LAST
    ensures MetaOk(Named(MetaBlock(t), name, size), t, name, [])
  {
    var b := Named(MetaBlock(t), name, size);
    WordSame(MetaBlock(t), b, LAST);
    forall q | EntryStart(|name|) <= q < LAST && q % 4 == 0 ensures Word(b, q) == 0 {
      ZeroTail(t);
      DecodeZero(b[q..q + 4]);
    }
  }

  lemma ZeroTail(t: Byte)
    ensures forall i | 4 <= i < BS :: MetaBlock(t)[i] == 0
  {
  }

  // ------------------------------------------------------------------ continuation blocks

  /** No word is left for an entry. */
  predicate Full(b: Block) {
    forall q | ScanStart(b) <= q < LAST && q % 4 == 0 :: Word(b, q) != 0
  }

  lemma FullIff(b: Block)
    ensures Full(b) <==> FindZero(b, ScanStart(b)).None?
  {
    if !Full(b) {
      var q :| ScanStart(b) <= q < LAST && q % 4 == 0 && Word(b, q) == 0;
      FindZeroFirst(b, ScanStart(b), q);
    }
  }

  /** From block i on, over full blocks of type t, the links lead to block x of that type. */
  ghost predicate Leads(d: seq<Block>, i: nat, x: nat, t: Byte)
    decreases |d| - i
  {
    && i < |d| && Id(d[i]) == META_ID && BaseType(d[i][2]) == t
    && (i == x || (Full(d[i]) && i < Word(d[i], LAST) && Leads(d, Word(d[i], LAST), x, t)))
  }

  /** r is d with block k, the first free one, as the continuation of block x, the entry behind its
      twelve bytes of header. */
  ghost predicate Continues(d: seq<Block>, r: seq<Block>, x: nat, k: nat, entry: nat, t: Byte)
    requires x < |d|
  {
    && |r| == |d| && k == FirstFree(d) < |d| && FirstFree(r) == k + 1
    && r[k] == SetWord(MetaBlock(ContType(t)), 12, entry) && r[x] == SetWord(d[x], LAST, k)
    && forall i | 0 < i < |d| && i != x && i != k :: r[i] == d[i]
  }

  /** p is the first place in b where the scan finds a zero word. */
  ghost predicate FirstFreeWord(b: Block, p: nat) {
    && ScanStart(b) <= p && p + 4 <= LAST && p % 4 == 0 && Word(b, p) == 0
    && forall q | ScanStart(b) <= q < p && q % 4 == 0 :: Word(b, q) != 0
  }

  /** g is the answer of addToMeta, and the device after it, when the entry belongs into block x. */
  ghost predicate PlacedIn(d: seq<Block>, g: (seq<Block>, bool), x: nat, entry: nat, t: Byte)
    requires |d| > 0 && x < |d|
  {
    if !Full(d[x]) then g.1 && exists p :: FirstFreeWord(d[x], p) && g.0 == d[x := SetWord(d[x], p, entry)]
    else if FirstFree(d) < |d| then g.1 && Continues(d, g.0, x, FirstFree(d), entry, t)
    else g == (d, false)
  }

  /** Where addToMeta puts an entry: into the first zero word of the first block, in the order of the
      links, that has one; if all are full, into a new continuation of the last. It fails only when
      the links lead to a block of another type, or no block is free; then nothing changes. */
  lemma {:induction false} EntryPlaced(d: seq<Block>, i: nat, entry: nat, t: Byte, g: (seq<Block>, bool))
    returns (x: nat)
    requires Inv(d) && (t == META_DIR || t == META_FILE) && i < |d| && g == AddToMeta(d, i, entry, t)
    ensures i <= x < |d| && (g.1 ==> Leads(d, i, x, t)) && (!g.1 ==> g.0 == d)
    ensures Leads(d, i, x, t) ==> (Full(d[x]) ==> Word(d[x], LAST) == 0) && PlacedIn(d, g, x, entry, t)
    decreases |d| - i
  {
    x := i;
    var b := d[x];
    if Id(b) == META_ID && BaseType(b[2]) == t {
      UseOnly(d, x);
      FullIff(b);
      if !Full(b) {
        var p := FirstSlot(b);
      } else if Word(b, LAST) != 0 {
        x := EntryPlaced(d, Word(b, LAST), entry, t, g);
      } else {
        ContinuationPlaced(d, x, entry, t, g);
      }
    }
  }

  lemma FirstSlot(b: Block) returns (p: nat)
    requires !Full(b)
    ensures FindZero(b, ScanStart(b)) == Some(p) && FirstFreeWord(b, p)
  {
    FullIff(b);
    p := FindZero(b, ScanStart(b)).value;
    forall q | ScanStart(b) <= q < p && q % 4 == 0 ensures Word(b, q) != 0 {
      if Word(b, q) == 0 { FindZeroFirst(b, ScanStart(b), q); }
    }
  }

  lemma ContinuationPlaced(d: seq<Block>, x: nat, entry: nat, t: Byte, g: (seq<Block>, bool))
    requires Inv(d) && (t == META_DIR || t == META_FILE)
    requires 1 <= x < FirstFree(d) && IsMeta(d[x]) && Word(d[x], LAST) == 0 && g == Extend(d, x, entry, t)
    ensures if FirstFree(d) < |d| then g.1 && Continues(d, g.0, x, FirstFree(d), entry, t) else g == (d, false)
  {
    TakeExact(d);
    var (q, k) := Take(d);
    if k != 0 {
      ExtendInv(q, x, k, t);
      FreshBlock(Continued(q, x, k, t), k, entry, t);
    } else if Word(d[0], FREECHAIN) == 0 {
      SetSame(d[0], FREECHAIN);
      assert q == d;
    }
  }

  lemma SetSame(b: Block, at: nat)
    requires at + 4 <= BS
    ensures SetWord(b, at, Word(b, at)) == b
  {
    EncodeDecode(b[at..at + 4]);
  }

  /** The first entry of a continuation block. */
  lemma FreshBlock(d: seq<Block>, k: nat, entry: nat, t: Byte)
    requires Inv(d) && (t == META_DIR || t == META_FILE) && k < |d| && d[k] == MetaBlock(ContType(t))
    ensures AddToMeta(d, k, entry, t) == (d[k := SetWord(d[k], 12, entry)], true)
  {
    ZeroTail(ContType(t));
    DecodeZero(d[k][12..16]);
    FirstZero(d[k], 12, 12);
  }

  // ------------------------------------------------------------------ the tree on disk

  predicate HoldsData(b: Block, contents: seq<Byte>) {
    && |contents| <= CHUNK && Id(b) == PAYLOAD_ID && b[2] == PAYLOAD_USED
    && b[4..4 + |contents|] == contents && forall i | 4 + |contents| <= i < BS :: b[i] == 0
  }

  /** What data block i of a file holds: 508 bytes, or what is left of them. */
  function Piece(contents: seq<Byte>, i: nat): (c: seq<Byte>)
    ensures |c| <= CHUNK
  {
    contents[Min(CHUNK * i, |contents|)..Min(CHUNK * (i + 1), |contents|)]
  }

  /** j data blocks are just enough for n bytes; a file without contents has one all the same. */
  predicate Covers(j: nat, n: nat) {
    n <= CHUNK * j && (if n == 0 then j == 1 else CHUNK * j < n + CHUNK)
  }

  function Pieces(n: nat): (j: nat)
    ensures j > 0 && Covers(j, n)
  {
    if n == 0 then 1 else (n + CHUNK - 1) / CHUNK
  }

  /** The blocks data hold the contents, in this order. */
  ghost predicate HoldsPieces(d: seq<Block>, data: seq<nat>, contents: seq<Byte>) {
    Covers(|data|, |contents|)
    && forall i {:trigger data[i]} | 0 <= i < |data| :: 0 < data[i] < |d| && HoldsData(d[data[i]], Piece(contents, i))
  }

  ghost predicate ObjOk(d: seq<Block>, x: nat, o: Obj)
    requires x < |d|
  {
    match o
    case Dir(name, children) => MetaOk(d[x], META_DIR, name, children)
    case File(name, contents, data) =>
      MetaOk(d[x], META_FILE, name, data) && d[x][4..12] == Encode(|contents|, 8) && HoldsPieces(d, data, contents)
  }

  /** The blocks in use spell out the tree. */
  ghost predicate Rep(d: seq<Block>, t: Tree) {
    && Inv(d)
    && (forall x | x in t :: 0 < x < FirstFree(d))
    && (forall x {:trigger ObjOk(d, x, t[x])} | x in t :: ObjOk(d, x, t[x]))
    && DataApart(d, t)
    && Closed(t)
  }

  /** The data blocks of files are in use, and none is the meta block of an object. */
  ghost predicate DataApart(d: seq<Block>, t: Tree)
    requires |d| > 0
  {
    forall x, i {:trigger t[x].data[i]} | x in t && t[x].File? && 0 <= i < |t[x].data| ::
      t[x].data[i] < FirstFree(d) && t[x].data[i] !in t
  }

  /** The entries of every directory are objects. */
  ghost predicate Closed(t: Tree) {
    forall x, i {:trigger t[x].children[i]} | x in t && t[x].Dir? && 0 <= i < |t[x].children| :: t[x].children[i] in t
  }

  /** An object none of whose blocks changed is still there. */
  lemma ObjKept(d: seq<Block>, r: seq<Block>, x: nat, o: Obj)
    requires |r| == |d| && x < |d| && ObjOk(d, x, o) && r[x] == d[x]
    requires o.File? ==> forall i | 0 <= i < |o.data| :: r[o.data[i]] == d[o.data[i]]
    ensures ObjOk(r, x, o)
  {
  }

  lemma FormatRep(n: nat, h: Block)
    requires 2 <= n <= MAX_BLOCKS && HeaderOk(h)
    ensures Rep(Formatted(n, h), map[1 := Dir([0x2F], [])])
  {
    FormatInv(n, h);
    NewMeta(META_DIR, [0x2F], 0);
  }

  // ------------------------------------------------------------------ addFile and addDir

  predicate Room(name: seq<Byte>, entries: nat) {
    EntryStart(|name|) + 4 * entries + 4 <= LAST
  }

  /** addToMeta on an object with room: its block, and nothing else, gets the entry. */
  lemma Entered(d: seq<Block>, x: nat, t: Byte, name: seq<Byte>, entries: seq<nat>, e: nat)
    requires Inv(d) && x < |d| && (t == META_DIR || t == META_FILE)
    requires MetaOk(d[x], t, name, entries) && Room(name, |entries|) && 0 < e < TWO32
    ensures var r := AddToMeta(d, x, e, t);
      r.1 && r.0[x] == SetWord(d[x], EntryStart(|name|) + 4 * |entries|, e)
      && MetaOk(r.0[x], t, name, entries + [e]) && r.0[x][4..12] == d[x][4..12]
      && forall i | 0 <= i < |d| && i != x :: r.0[i] == d[i]
  {
    EntrySlot(d[x], t, name, entries);
    EntryAdded(d[x], t, name, entries, e);
  }

  /** What adding an object under parent changes: the header, the parent, and the new block k. */
  ghost predicate Added(d: seq<Block>, r: seq<Block>, parent: nat, k: nat)
    requires |d| > 0
  {
    && |r| == |d| && Inv(r) && k == FirstFree(d) && FirstFree(r) > k
    && forall i | 0 < i < k && i != parent :: r[i] == d[i]
  }

  lemma ObjectAdded(d: seq<Block>, parent: nat, pname: seq<Byte>, children: seq<nat>, name: seq<Byte>, t: Byte,
                    size: nat)
    requires Inv(d) && 0 < parent < FirstFree(d) < |d| && MetaOk(d[parent], META_DIR, pname, children)
    requires Room(pname, |children|) && (t == META_DIR || t == META_FILE)
    requires name != [] && NameOk(name) && EntryStart(|name|) <= LAST
    ensures var k := FirstFree(d);
      var (r, block) := AddObject(d, parent, name, t, size);
      && block == k && Added(d, r, parent, k) && FirstFree(r) == k + 1
      && r[parent] == SetWord(d[parent], EntryStart(|pname|) + 4 * |children|, k)
      && r[k] == Named(MetaBlock(t), name, size)
  {
    var k := FirstFree(d);
    TakeExact(d);
    var (q, block) := Take(d);
    Entered(q, parent, META_DIR, pname, children, k);
    AddObjectGrown(d, parent, name, t, size);
    AddToMetaGrown(q, parent, k, META_DIR);
  }

  /** r is d with i blocks from k on entered into the file's block x; they hold the first i pieces of
      the contents. */
  ghost predicate Filled(d: seq<Block>, r: seq<Block>, x: nat, name: seq<Byte>, contents: seq<Byte>, k: nat, i: nat)
    requires |d| > 0 && x < |d|
  {
    && |r| == |d| && Inv(r) && FirstFree(r) == k + i && k + i <= |d|
    && MetaOk(r[x], META_FILE, name, Interval(k, k + i)) && r[x][4..12] == d[x][4..12]
    && (forall y | 0 < y < k && y != x :: r[y] == d[y])
    && PiecesAt(r, contents, k, i)
  }

  /** The blocks from k on hold the first i pieces. */
  ghost predicate PiecesAt(r: seq<Block>, contents: seq<Byte>, k: nat, i: nat)
    requires k + i <= |r|
  {
    forall n {:trigger Piece(contents, n)} | 0 <= n < i :: HoldsData(r[k + n], Piece(contents, n))
  }

  /** What addData has left to write after i pieces. */
  function Rest(contents: seq<Byte>, i: nat): (c: seq<Byte>) {
    contents[Min(CHUNK * i, |contents|)..]
  }

  /** addData enters its blocks into the file's block one behind the other, and each keeps its piece
      of the contents: with i of j pieces written it goes on to write the others. */
  lemma {:induction false} DataAdded(d: seq<Block>, q: seq<Block>, x: nat, name: seq<Byte>, contents: seq<Byte>,
                                     k: nat, i: nat, j: nat, g: (seq<Block>, bool))
    requires 0 < x < k && k + j <= |d| && i < j && Covers(j, |contents|) && EntryStart(|name|) + 4 * j <= LAST
    requires Filled(d, q, x, name, contents, k, i) && g == AddData(q, x, Rest(contents, i))
    ensures g.1 && Filled(d, g.0, x, name, contents, k, j)
    decreases j - i
  {
    var r := PieceFilled(d, q, x, name, contents, k, i, g);
    if i + 1 < j {
      DataAdded(d, r, x, name, contents, k, i + 1, j, g);
    }
  }

  /** One block of addData: r is the device with it, and addData goes on from there. */
  lemma PieceFilled(d: seq<Block>, q: seq<Block>, x: nat, name: seq<Byte>, contents: seq<Byte>, k: nat, i: nat,
                    g: (seq<Block>, bool)) returns (r: seq<Block>)
    requires 0 < x < k && k + i < |d| && EntryStart(|name|) + 4 * i + 4 <= LAST
    requires Filled(d, q, x, name, contents, k, i) && g == AddData(q, x, Rest(contents, i))
    ensures Filled(d, r, x, name, contents, k, i + 1)
    ensures g == if |contents| <= CHUNK * (i + 1) then (r, true) else AddData(r, x, Rest(contents, i + 1))
  {
    var rest, p, data := Rest(contents, i), Piece(contents, i), Interval(k, k + (i + 1));
    PieceOfRest(contents, i, rest, p);
    IntervalGrows(k, k + i);
    r := PieceAdded(q, x, name, Interval(k, k + i), data, rest, p, k + i, g);
    FilledMore(d, q, r, x, name, contents, k, i, p, data);
  }

  lemma PieceOfRest(contents: seq<Byte>, i: nat, rest: seq<Byte>, p: seq<Byte>)
    requires rest == Rest(contents, i) && p == Piece(contents, i)
    ensures p == rest[..Min(CHUNK, |rest|)]
    ensures |rest| <= CHUNK <==> |contents| <= CHUNK * (i + 1)
    ensures |rest| > CHUNK ==> rest[CHUNK..] == Rest(contents, i + 1)
  {
  }

  /** addData on a file's block with room: the next free block is entered and gets piece p. */
  lemma PieceAdded(d: seq<Block>, x: nat, name: seq<Byte>, data: seq<nat>, more: seq<nat>, contents: seq<Byte>,
                   p: seq<Byte>, k: nat, g: (seq<Block>, bool)) returns (q: seq<Block>)
    requires Inv(d) && g == AddData(d, x, contents) && p == contents[..Min(CHUNK, |contents|)]
    requires 0 < x < FirstFree(d) == k && k < |d| && more == data + [k]
    requires MetaOk(d[x], META_FILE, name, data) && Room(name, |data|)
    ensures Added(d, q, x, k) && FirstFree(q) == k + 1
    ensures MetaOk(q[x], META_FILE, name, more) && q[x][4..12] == d[x][4..12] && HoldsData(q[k], p)
    ensures g == if |contents| <= CHUNK then (q, true) else AddData(q, x, contents[CHUNK..])
  {
    TakeExact(d);
    var (s, block) := Take(d);
    Entered(s, x, META_FILE, name, data, k);
    AddToMetaGrown(s, x, k, META_FILE);
    var e := AddToMeta(s, x, k, META_FILE).0;
    q := e[k := Payload(p)];
    PutInv(e, k, Payload(p));
  }

  lemma FilledMore(d: seq<Block>, q: seq<Block>, r: seq<Block>, x: nat, name: seq<Byte>, contents: seq<Byte>, k: nat,
                   i: nat, p: seq<Byte>, data: seq<nat>)
    requires 0 < x < k && k + i < |d| && Filled(d, q, x, name, contents, k, i)
    requires p == Piece(contents, i) && data == Interval(k, k + (i + 1))
    requires Added(q, r, x, k + i) && FirstFree(r) == k + i + 1
    requires MetaOk(r[x], META_FILE, name, data) && r[x][4..12] == d[x][4..12] && HoldsData(r[k + i], p)
    ensures Filled(d, r, x, name, contents, k, i + 1)
  {
    PieceMore(q, r, contents, k, i);
  }

  lemma PieceMore(q: seq<Block>, r: seq<Block>, contents: seq<Byte>, k: nat, i: nat)
    requires |r| == |q| && k + i < |q| && PiecesAt(q, contents, k, i) && HoldsData(r[k + i], Piece(contents, i))
    requires forall y | k <= y < k + i :: r[y] == q[y]
    ensures PiecesAt(r, contents, k, i + 1)
  {
  }

  /** The tree with object o at block k, entered last into its parent. */
  function WithObj(t: Tree, parent: nat, k: nat, o: Obj): (r: Tree)
    requires parent in t && t[parent].Dir?
  {
    t[parent := Dir(t[parent].name, t[parent].children + [k])][k := o]
  }

  /** A file whose meta block is k has its data in the blocks behind. */
  function NewFile(k: nat, name: seq<Byte>, contents: seq<Byte>): (o: Obj) {
    File(name, contents, Interval(k + 1, k + 1 + Pieces(|contents|)))
  }

  function WithFile(t: Tree, parent: nat, k: nat, name: seq<Byte>, contents: seq<Byte>): (r: Tree)
    requires parent in t && t[parent].Dir?
  {
    WithObj(t, parent, k, NewFile(k, name, contents))
  }

  /** A device that differs from d in the parent and in new blocks holds the extended tree. */
  lemma TreeExtended(d: seq<Block>, r: seq<Block>, t: Tree, parent: nat, k: nat, o: Obj)
    requires Rep(d, t) && parent in t && t[parent].Dir? && Added(d, r, parent, k)
    requires k < FirstFree(r) && ObjOk(r, k, o)
    requires o.File? ==> forall i | 0 <= i < |o.data| :: k < o.data[i] < FirstFree(r)
    requires o.Dir? ==> o.children == []
    requires MetaOk(r[parent], META_DIR, t[parent].name, t[parent].children + [k])
    ensures Rep(r, WithObj(t, parent, k, o))
  {
    var u := WithObj(t, parent, k, o);
    ObjectsOk(d, r, t, u, parent, k);
    ChildrenKnown(t, u, parent, k);
  }

  lemma ObjectsOk(d: seq<Block>, r: seq<Block>, t: Tree, u: Tree, parent: nat, k: nat)
    requires Rep(d, t) && parent in t && t[parent].Dir? && Added(d, r, parent, k) && k < |r|
    requires forall x | x in u && x != k && x != parent :: x in t && u[x] == t[x]
    requires k in u && parent in u && ObjOk(r, k, u[k]) && ObjOk(r, parent, u[parent])
    ensures forall x {:trigger u[x]} | x in u :: x < |r| && ObjOk(r, x, u[x])
  {
    forall x | x in u ensures x < |r| && ObjOk(r, x, u[x]) {
      if x != k && x != parent { OthersKept(d, r, t, parent, k, x); }
    }
  }

  lemma OthersKept(d: seq<Block>, r: seq<Block>, t: Tree, parent: nat, k: nat, x: nat)
    requires Rep(d, t) && parent in t && t[parent].Dir? && Added(d, r, parent, k) && x in t && x != parent
    ensures ObjOk(r, x, t[x])
  {
    assert ObjOk(d, x, t[x]);
    ObjKept(d, r, x, t[x]);
  }

  lemma ChildrenKnown(t: Tree, u: Tree, parent: nat, k: nat)
    requires Closed(t)
    requires t.Keys <= u.Keys && k in u && parent in t && t[parent].Dir? && (u[k].Dir? ==> u[k].children == [])
    requires forall x | x in u && x != k && x != parent :: x in t && u[x] == t[x]
    requires u[parent].Dir? ==> u[parent].children == t[parent].children + [k] || parent == k
    ensures Closed(u)
  {
    forall x, i | x in u && u[x].Dir? && 0 <= i < |u[x].children| ensures u[x].children[i] in u {
      if x != k && (x != parent || i < |t[x].children|) { assert t[x].children[i] in t; }
    }
  }

  /** The operations on the tree. A name must not be empty and, like the parent's, leave room for the
      entry; so do the entries of a file's blocks. */
  predicate DirRoom(t: Tree, parent: nat, name: seq<Byte>) {
    && parent in t && t[parent].Dir? && Room(t[parent].name, |t[parent].children|)
    && name != [] && NameOk(name) && EntryStart(|name|) <= LAST
  }

  predicate FileRoom(t: Tree, parent: nat, name: seq<Byte>, contents: seq<Byte>) {
    DirRoom(t, parent, name) && EntryStart(|name|) + 4 * Pieces(|contents|) <= LAST
  }

  /** Enough blocks are free as well. */
  predicate DirFits(d: seq<Block>, t: Tree, parent: nat, name: seq<Byte>) {
    |d| > 0 && DirRoom(t, parent, name) && FirstFree(d) < |d|
  }

  predicate FileFits(d: seq<Block>, t: Tree, parent: nat, name: seq<Byte>, contents: seq<Byte>) {
    |d| > 0 && FileRoom(t, parent, name, contents) && FirstFree(d) + Pieces(|contents|) < |d|
  }

  /** addDir appends a new, empty directory to its parent and changes no other object. */
  lemma AddDirExact(d: seq<Block>, t: Tree, parent: nat, name: seq<Byte>)
    requires Rep(d, t) && DirFits(d, t, parent, name)
    ensures AddDir(d, parent, name).1
    ensures Rep(AddDir(d, parent, name).0, WithObj(t, parent, FirstFree(d), Dir(name, [])))
  {
    var k := FirstFree(d);
    assert ObjOk(d, parent, t[parent]);
    ObjectAdded(d, parent, t[parent].name, t[parent].children, name, META_DIR, 0);
    EntryAdded(d[parent], META_DIR, t[parent].name, t[parent].children, k);
    NewMeta(META_DIR, name, 0);
    TreeExtended(d, AddDir(d, parent, name).0, t, parent, k, Dir(name, []));
  }

  /** addFile appends a new file with exactly these contents, in as many blocks as they take and in
      their order, and changes no other object. */
  lemma AddFileExact(d: seq<Block>, t: Tree, parent: nat, name: seq<Byte>, contents: seq<Byte>)
    requires Rep(d, t) && FileFits(d, t, parent, name, contents)
    ensures AddFile(d, parent, name, contents).1
    ensures Rep(AddFile(d, parent, name, contents).0, WithFile(t, parent, FirstFree(d), name, contents))
  {
    var k := FirstFree(d);
    var q := ObjectHalf(d, t, parent, name, contents);
    var j, o := NewFileParts(k, name, contents);
    var r := HalfBehind(d, q, t, parent, name, contents, k, j, o);
  }

  lemma NewFileParts(k: nat, name: seq<Byte>, contents: seq<Byte>) returns (j: nat, o: Obj)
    ensures j == Pieces(|contents|) && o == NewFile(k, name, contents)
    ensures o == File(name, contents, Interval(k + 1, k + 1 + j))
  {
    j, o := Pieces(|contents|), NewFile(k, name, contents);
  }

  /** addFile has entered the object at block k and named it; q is the device. */
  ghost predicate HalfWay(d: seq<Block>, q: seq<Block>, t: Tree, parent: nat, name: seq<Byte>, contents: seq<Byte>,
                          k: nat)
    requires 0 < parent < |d| && parent in t && t[parent].Dir? && Room(t[parent].name, |t[parent].children|)
    requires NameOk(name)
  {
    && Added(d, q, parent, k) && FirstFree(q) == k + 1 && k < |d|
    && q[parent] == SetWord(d[parent], EntryStart(|t[parent].name|) + 4 * |t[parent].children|, k)
    && q[k] == Named(MetaBlock(META_FILE), name, |contents|)
  }

  lemma ObjectHalf(d: seq<Block>, t: Tree, parent: nat, name: seq<Byte>, contents: seq<Byte>) returns (q: seq<Block>)
    requires Rep(d, t) && DirFits(d, t, parent, name)
    ensures HalfWay(d, q, t, parent, name, contents, FirstFree(d))
    ensures AddFile(d, parent, name, contents) == AddData(q, FirstFree(d), contents)
  {
    assert ObjOk(d, parent, t[parent]);
    q := AddObject(d, parent, name, META_FILE, |contents|).0;
    ObjectAdded(d, parent, t[parent].name, t[parent].children, name, META_FILE, |contents|);
    AddFileParts(d, parent, name, contents, q, FirstFree(d));
  }

  lemma AddFileParts(d: seq<Block>, parent: nat, name: seq<Byte>, contents: seq<Byte>, q: seq<Block>, k: nat)
    requires Inv(d) && NameOk(name) && k > 0 && AddObject(d, parent, name, META_FILE, |contents|) == (q, k)
    ensures Inv(q) && AddFile(d, parent, name, contents) == AddData(q, k, contents)
  {
    AddObjectGrown(d, parent, name, META_FILE, |contents|);
  }

  /** The second half of addFile, on the device q that AddObject left. */
  lemma HalfBehind(d: seq<Block>, q: seq<Block>, t: Tree, parent: nat, name: seq<Byte>, contents: seq<Byte>, k: nat,
                   j: nat, o: Obj) returns (r: seq<Block>)
    requires Rep(d, t) && FileFits(d, t, parent, name, contents) && HalfWay(d, q, t, parent, name, contents, k)
    requires j == Pieces(|contents|) && o == File(name, contents, Interval(k + 1, k + 1 + j))
    ensures AddData(q, k, contents) == (r, true) && Rep(r, WithObj(t, parent, k, o))
  {
    r := DataBehind(d, q, t, parent, name, contents, k, j);
    FileOk(q, r, k, name, contents, j, o);
    TreeExtended(d, r, t, parent, k, o);
  }

  lemma DataBehind(d: seq<Block>, q: seq<Block>, t: Tree, parent: nat, name: seq<Byte>, contents: seq<Byte>, k: nat,
                   j: nat) returns (r: seq<Block>)
    requires Rep(d, t) && FileFits(d, t, parent, name, contents) && HalfWay(d, q, t, parent, name, contents, k)
    requires j == Pieces(|contents|)
    ensures AddData(q, k, contents) == (r, true) && Filled(q, r, k, name, contents, k + 1, j)
    ensures Added(d, r, parent, k) && MetaOk(r[parent], META_DIR, t[parent].name, t[parent].children + [k])
  {
    assert ObjOk(d, parent, t[parent]);
    EntryAdded(d[parent], META_DIR, t[parent].name, t[parent].children, k);
    NewMeta(META_FILE, name, |contents|);
    r := AllAdded(q, k, name, contents, k + 1, j);
    FileJoined(d, q, r, parent, k);
  }

  /** addData from the first piece on. */
  lemma AllAdded(q: seq<Block>, x: nat, name: seq<Byte>, contents: seq<Byte>, k: nat, j: nat) returns (r: seq<Block>)
    requires Inv(q) && 0 < x < FirstFree(q) == k && k + j <= |q| && j == Pieces(|contents|)
    requires MetaOk(q[x], META_FILE, name, []) && EntryStart(|name|) + 4 * j <= LAST
    ensures AddData(q, x, contents) == (r, true) && Filled(q, r, x, name, contents, k, j)
  {
    r := AddData(q, x, contents).0;
    assert Rest(contents, 0) == contents;
    DataAdded(q, q, x, name, contents, k, 0, j, AddData(q, x, contents));
  }

  lemma FileOk(q: seq<Block>, r: seq<Block>, k: nat, name: seq<Byte>, contents: seq<Byte>, j: nat, o: Obj)
    requires k < |q| && Filled(q, r, k, name, contents, k + 1, j) && Covers(j, |contents|)
    requires o == File(name, contents, Interval(k + 1, k + 1 + j)) && q[k][4..12] == Encode(|contents|, 8)
    ensures ObjOk(r, k, o) && forall i | 0 <= i < |o.data| :: k < o.data[i] < FirstFree(r)
  {
    forall i | 0 <= i < |o.data| ensures HoldsData(r[o.data[i]], Piece(contents, i)) {
      assert o.data[i] == k + 1 + i;
    }
  }

  lemma FileJoined(d: seq<Block>, q: seq<Block>, r: seq<Block>, parent: nat, k: nat)
    requires |d| > 0 && Added(d, q, parent, k) && FirstFree(q) == k + 1 && Added(q, r, k, k + 1) && 0 < parent < k
    ensures Added(d, r, parent, k) && r[parent] == q[parent]
  {
  }

  // ------------------------------------------------------------------ refusals

  /** addDir succeeds if and only if a block is free. */
  lemma AddDirIff(d: seq<Block>, t: Tree, parent: nat, name: seq<Byte>)
    requires Rep(d, t) && DirRoom(t, parent, name)
    ensures AddDir(d, parent, name).1 <==> FirstFree(d) < |d|
  {
    if FirstFree(d) < |d| {
      AddDirExact(d, t, parent, name);
    } else {
      TakeExact(d);
    }
  }

  /** addFile succeeds if and only if a block is free for the object and for each piece. */
  lemma AddFileIff(d: seq<Block>, t: Tree, parent: nat, name: seq<Byte>, contents: seq<Byte>)
    requires Rep(d, t) && FileRoom(t, parent, name, contents)
    ensures AddFile(d, parent, name, contents).1 <==> FirstFree(d) + Pieces(|contents|) < |d|
  {
    var k, j := FirstFree(d), Pieces(|contents|);
    if k + j < |d| {
      AddFileExact(d, t, parent, name, contents);
    } else if k < |d| {
      var q := ObjectHalf(d, t, parent, name, contents);
      NewMeta(META_FILE, name, |contents|);
      DataRefused(q, k, name, [], contents, k + 1, j, AddData(q, k, contents));
    } else {
      TakeExact(d);
    }
  }

  lemma {:induction false} DataRefused(d: seq<Block>, x: nat, name: seq<Byte>, data: seq<nat>, contents: seq<Byte>,
                                       k: nat, j: nat, g: (seq<Block>, bool))
    requires Inv(d) && g == AddData(d, x, contents)
    requires 0 < x < FirstFree(d) == k && |d| < k + j && Covers(j, |contents|)
    requires MetaOk(d[x], META_FILE, name, data) && EntryStart(|name|) + 4 * (|data| + j) <= LAST
    ensures !g.1
    decreases j
  {
    if k < |d| {
      var q := PieceAdded(d, x, name, data, data + [k], contents, contents[..Min(CHUNK, |contents|)], k, g);
      if |contents| > CHUNK {
        DataRefused(q, x, name, data + [k], contents[CHUNK..], k + 1, j - 1, g);
      }
    } else {
      TakeExact(d);
    }
  }

  /** Nothing is ever added without a parent, or to a file. */
  lemma ParentRefused(d: seq<Block>, t: Tree, parent: nat, name: seq<Byte>, contents: seq<Byte>)
    requires Rep(d, t) && NameOk(name) && (parent == 0 || (parent in t && t[parent].File?))
    ensures !AddDir(d, parent, name).1 && !AddFile(d, parent, name, contents).1
  {
    if parent != 0 {
      assert ObjOk(d, parent, t[parent]);
      ObjectRefused(d, parent, name, META_DIR, 0);
      ObjectRefused(d, parent, name, META_FILE, |contents|);
    }
  }

  lemma ObjectRefused(d: seq<Block>, parent: nat, name: seq<Byte>, t: Byte, size: nat)
    requires Inv(d) && 0 < parent < FirstFree(d) && d[parent][2] == META_FILE
    requires NameOk(name) && (t == META_DIR || t == META_FILE)
    ensures AddObject(d, parent, name, t, size).1 == 0
  {
    TakeExact(d);
  }

  // ------------------------------------------------------------------ the iterator

  /** ClothesFS::Iterator; index counts entries, pos is the next byte of the data block. */
  datatype Iter = Iter(ok: bool, parent: Block, index: nat, block: nat, data: Block, content: Block,
                       pos: nat, dataBlock: nat)

  /** The reader's first slot of a block (src/fs/clothesfs.cpp:573-583). */
  function ReadStart(b: Block): (p: nat) {
    if b[2] == META_FILE || b[2] == META_DIR then Wrap(Round4(16 + Word(b, 12))) else 4
  }

  /** getCurrent (src/fs/clothesfs.cpp:566-605), continuation branch included. */
  function GetCurrent(d: seq<Block>, it: Iter): (r: (Iter, bool)) {
    if it.parent[2] == META_FREE then (it, false)
    else
      var pos := Wrap(4 * it.index + ReadStart(it.parent));
      if pos >= LAST then GoOn(d, it) else Fetch(d, it, pos)
  }

  /** The continuation branch: the next block of the directory, from its offset 0 on. */
  function GoOn(d: seq<Block>, it: Iter): (r: (Iter, bool)) {
    var next := Get(d, Word(it.parent, LAST));
    if Word(it.parent, LAST) == 0 || next.None? then (it, false)
    else Fetch(d, it.(parent := next.value, index := 0), 0)
  }

  /** Listing goes on at offset 0 of a continuation block, where its header is: behind the last entry of a
      full block comes the block whose number is that header word, instead of the entry that addToMeta
      put into the continuation. */
  lemma ContinuationMisread(d: seq<Block>, it: Iter, k: nat, entry: nat, t: Byte)
    requires (t == META_DIR || t == META_FILE) && 0 < k < |d| <= MAX_BLOCKS
    requires it.parent[2] != META_FREE && Wrap(4 * it.index + ReadStart(it.parent)) >= LAST
    requires Word(it.parent, LAST) == k && d[k] == SetWord(MetaBlock(ContType(t)), 12, entry)
    ensures GetCurrent(d, it).0.block == 0x42 + 0x1_0000 * ContType(t)
  {
    HeaderWord(d[k], t);
  }

  lemma HeaderWord(b: Block, t: Byte)
    requires b[0] == META_ID && b[1] == 0 && b[2] == ContType(t) && b[3] == 0
    ensures Word(b, 0) == 0x42 + 0x1_0000 * ContType(t)
  {
    var w, hi: int := b[0..4], b[2];
    assert w[1..][1..] == [b[2], b[3]] && [b[2], b[3]][1..] == [b[3]] && [b[3]][1..] == [];
    assert Decode([b[3]]) == 0 && Decode([b[2], b[3]]) == hi && Decode(w[1..]) == 256 * hi;
  }

  function Fetch(d: seq<Block>, it: Iter, pos: nat): (r: (Iter, bool))
    requires pos < LAST
  {
    var block := Word(it.parent, pos);
    var data := Get(d, block);
    if block == 0 || data.None? then (it.(block := block), false)
    else (it.(block := block, data := data.value), true)
  }

  function List(d: seq<Block>, parent: nat): (it: Iter) {
    var it := Iter(false, Zeros(), 0, parent, Zeros(), Zeros(), 0, 0);
    var b := Get(d, parent);
    if parent == 0 || b.None? then it
    else
      var (r, ok) := GetCurrent(d, it.(parent := b.value));
      r.(ok := ok)
  }

  function Next(d: seq<Block>, it: Iter): (r: Iter) {
    var (n, ok) := GetCurrent(d, it.(index := it.index + 1));
    n.(ok := ok, pos := 0, dataBlock := 0)
  }

  /** The iterator after list and i calls of next. */
  function Visit(d: seq<Block>, parent: nat, i: nat): (it: Iter)
    decreases i
  {
    if i == 0 then List(d, parent) else Next(d, Visit(d, parent, i - 1))
  }

  function NameOf(it: Iter): (name: seq<Byte>)
    requires 16 + Word(it.data, 12) <= BS
  {
    it.data[16..16 + Word(it.data, 12)]
  }

  /** A child of a directory can be read from the device. */
  lemma ChildRead(d: seq<Block>, t: Tree, p: nat, i: nat)
    requires Rep(d, t) && p in t && t[p].Dir? && i < |t[p].children|
    ensures var c := t[p].children[i];
      c in t && 0 < c < FirstFree(d) && Get(d, c) == Some(d[c])
  {
  }

  /** What entry i of a directory block yields. */
  lemma CurrentExact(d: seq<Block>, t: Tree, p: nat, it: Iter)
    requires Rep(d, t) && p in t && t[p].Dir? && it.parent == d[p] && it.index <= |t[p].children|
    ensures it.index < |t[p].children| ==> t[p].children[it.index] < |d|
    ensures GetCurrent(d, it) ==
      if it.index < |t[p].children|
      then (it.(block := t[p].children[it.index], data := d[t[p].children[it.index]]), true)
      else (it.(block := GetCurrent(d, it).0.block), false)
  {
    assert ObjOk(d, p, t[p]);
    var cs, i := t[p].children, it.index;
    var at := EntryPlace(d[p], META_DIR, t[p].name, cs, i);
    if i < |cs| {
      ChildRead(d, t, p, i);
      FetchesEntry(d, it, at, cs[i]);
    } else {
      FetchesNone(d, it, at);
    }
  }

  /** Where the reader looks for entry i, and what it finds. */
  lemma EntryPlace(b: Block, t: Byte, name: seq<Byte>, entries: seq<nat>, i: nat) returns (at: nat)
    requires MetaOk(b, t, name, entries) && (t == META_DIR || t == META_FILE) && i <= |entries|
    ensures b[2] != META_FREE && at == Wrap(4 * i + ReadStart(b)) && Word(b, LAST) == 0
    ensures i < |entries| ==> at < LAST && Word(b, at) == entries[i]
    ensures i == |entries| && at < LAST ==> Word(b, at) == 0
  {
    at := EntryStart(|name|) + 4 * i;
    if i < |entries| { assert EntryAt(b, name, i) == entries[i]; }
  }

  lemma FetchesEntry(d: seq<Block>, it: Iter, at: nat, c: nat)
    requires it.parent[2] != META_FREE && at == Wrap(4 * it.index + ReadStart(it.parent)) && at < LAST
    requires Word(it.parent, at) == c && 0 < c < |d| && Get(d, c) == Some(d[c])
    ensures GetCurrent(d, it) == (it.(block := c, data := d[c]), true)
  {
  }

  lemma FetchesNone(d: seq<Block>, it: Iter, at: nat)
    requires it.parent[2] != META_FREE && at == Wrap(4 * it.index + ReadStart(it.parent))
    requires Word(it.parent, LAST) == 0 && (at < LAST ==> Word(it.parent, at) == 0)
    ensures GetCurrent(d, it) == (it.(block := GetCurrent(d, it).0.block), false)
  {
  }

  /** The iterator shows entry i of the directory at block p. */
  ghost predicate Shows(d: seq<Block>, t: Tree, p: nat, i: nat, it: Iter)
    requires p in t && t[p].Dir? && p < |d|
  {
    && it.parent == d[p] && it.index == i && it.pos == 0 && it.dataBlock == 0
    && (it.ok <==> i < |t[p].children|)
    && (it.ok ==> it.block == t[p].children[i] && it.block < |d| && it.data == d[it.block])
  }

  lemma ListShows(d: seq<Block>, t: Tree, p: nat)
    requires Rep(d, t) && p in t && t[p].Dir?
    ensures Shows(d, t, p, 0, List(d, p))
  {
    CurrentExact(d, t, p, Iter(false, d[p], 0, p, Zeros(), Zeros(), 0, 0));
    if |t[p].children| > 0 { ChildRead(d, t, p, 0); }
  }

  lemma NextShows(d: seq<Block>, t: Tree, p: nat, it: Iter)
    requires Rep(d, t) && p in t && t[p].Dir? && it.index < |t[p].children| && Shows(d, t, p, it.index, it)
    ensures Shows(d, t, p, it.index + 1, Next(d, it))
  {
    CurrentExact(d, t, p, it.(index := it.index + 1));
    if it.index + 1 < |t[p].children| { ChildRead(d, t, p, it.index + 1); }
  }

  lemma {:induction false} VisitShows(d: seq<Block>, t: Tree, p: nat, i: nat)
    requires Rep(d, t) && p in t && t[p].Dir? && i <= |t[p].children|
    ensures Shows(d, t, p, i, Visit(d, p, i))
    decreases i
  {
    if i == 0 {
      ListShows(d, t, p);
    } else {
      VisitShows(d, t, p, i - 1);
      NextShows(d, t, p, Visit(d, p, i - 1));
    }
  }

  /** list and next visit exactly the objects of a directory, in the order they were added, and
      show each under its exact name. */
  lemma ListExact(d: seq<Block>, t: Tree, p: nat, i: nat)
    requires Rep(d, t) && p in t && t[p].Dir? && i <= |t[p].children|
    ensures var it := Visit(d, p, i);
      && (it.ok <==> i < |t[p].children|)
      && (it.ok ==> it.block == t[p].children[i] && it.block in t
                    && 16 + Word(it.data, 12) <= BS && NameOf(it) == t[it.block].name)
  {
    VisitShows(d, t, p, i);
    var it := Visit(d, p, i);
    if it.ok {
      ChildRead(d, t, p, i);
      assert ObjOk(d, it.block, t[it.block]);
    }
  }

  // ------------------------------------------------------------------ reading

  /** The start of read (src/fs/clothesfs.cpp:619-664): fetch the data block when none is open or
      the open one is used up; the iterator stays on entry 0 of the file's list. */
  function Open(d: seq<Block>, it: Iter): (r: (Iter, bool)) {
    if !((it.pos == 0 && it.dataBlock == 0) || it.pos >= BS) then (it, true)
    else
      var start := if it.data[2] == META_FILE then Wrap(Round4(16 + Word(it.data, 12))) else 4;
      if start >= LAST then OpenNext(d, it) else OpenAt(d, it, start)
  }

  function OpenNext(d: seq<Block>, it: Iter): (r: (Iter, bool)) {
    var next := Get(d, Word(it.data, LAST));
    if Word(it.data, LAST) == 0 || next.None? then (it, false) else OpenAt(d, it.(data := next.value), 4)
  }

  function OpenAt(d: seq<Block>, it: Iter, at: nat): (r: (Iter, bool))
    requires at + 4 <= BS
  {
    var block := Word(it.data, at);
    var content := Get(d, block);
    if block == 0 then (it.(dataBlock := 0), false)
    else if content.None? then (it.(dataBlock := block), false)
    else if Id(content.value) != PAYLOAD_ID || content.value[2] != PAYLOAD_USED then
      (it.(dataBlock := block, content := content.value), false)
    else (it.(dataBlock := block, content := content.value, pos := 4), true)
  }

  /** read (src/fs/clothesfs.cpp:607-677): bytes of the open block from pos on. */
  function Read(d: seq<Block>, it: Iter, cnt: nat): (r: (Iter, seq<Byte>)) {
    var (o, ok) := Open(d, it);
    if ok then Drain(o, cnt) else (o, [])
  }

  /** Up to cnt bytes of the open block. */
  function Drain(it: Iter, cnt: nat): (r: (Iter, seq<Byte>)) {
    if it.pos > BS then (it, [])
    else
      var n := Min(cnt, BS - it.pos);
      (it.(pos := it.pos + n), it.content[it.pos..it.pos + n])
  }

  /** Several reads in a row. */
  function ReadAll(d: seq<Block>, it: Iter, cnts: seq<nat>): (r: seq<Byte>)
    decreases |cnts|
  {
    if cnts == [] then [] else Read(d, it, cnts[0]).1 + ReadAll(d, Read(d, it, cnts[0]).0, cnts[1..])
  }

  /** The iterator stands on file f with done bytes of its first data block read. A block read to its
      very end is fetched anew by the next call, even by one for no bytes. */
  ghost predicate Reading(d: seq<Block>, it: Iter, f: Obj, done: nat) {
    && f.File? && |f.data| > 0 && 0 < f.data[0] < |d| <= MAX_BLOCKS && done <= CHUNK
    && HoldsData(d[f.data[0]], Piece(f.contents, 0))
    && it.data[2] == META_FILE && ReadStart(it.data) < LAST && Word(it.data, ReadStart(it.data)) == f.data[0]
    && ((it.pos == 0 && it.dataBlock == 0 && done == 0) || Opened(d, it, f.data[0], done))
  }

  predicate Opened(d: seq<Block>, it: Iter, x: nat, done: nat) {
    && x < |d| && it.dataBlock == x && it.content == d[x]
    && (it.pos == 4 + done || (it.pos == 4 && done == CHUNK))
  }

  lemma OpenExact(d: seq<Block>, it: Iter, f: Obj, done: nat)
    requires Reading(d, it, f, done)
    ensures Open(d, it) ==
      if it.pos == 4 + done && done < CHUNK then (it, true)
      else if it.pos == 4 && done == CHUNK then (it, true)
      else (it.(dataBlock := f.data[0], content := d[f.data[0]], pos := 4), true)
  {
  }

  lemma SliceOf(b: Block, c: seq<Byte>, done: nat, cnt: nat)
    requires done + cnt <= |c| <= CHUNK && b[4..4 + |c|] == c
    ensures b[4 + done..4 + done + cnt] == c[done..done + cnt]
  {
    var x, y := b[4 + done..4 + done + cnt], c[done..done + cnt];
    forall i | 0 <= i < cnt ensures x[i] == y[i] {
      assert b[4..4 + |c|][done + i] == b[4 + (done + i)];
    }
  }

  /** Where a read goes on: at the start again, once the block was read to its end. */
  function From(done: nat): (p: nat)
    ensures done <= CHUNK ==> p < CHUNK && p <= done
  {
    if done == CHUNK then 0 else done
  }

  /** A read yields the next bytes of the first data block, up to its end. */
  lemma ReadStep(d: seq<Block>, it: Iter, f: Obj, done: nat, cnt: nat) returns (n: Iter, got: seq<Byte>, from: nat)
    requires Reading(d, it, f, done)
    ensures Read(d, it, cnt) == (n, got) && from == From(done) && |got| == Min(cnt, CHUNK - from)
    ensures got == d[f.data[0]][4 + from..4 + from + |got|]
    ensures Reading(d, n, f, from + |got|) && (cnt == 0 ==> Reading(d, n, f, done))
  {
    n, got, from := Read(d, it, cnt).0, Read(d, it, cnt).1, From(done);
    OpenExact(d, it, f, done);
  }

  /** What any read answers: the contents from where the last one ended, then the zeros behind them;
      never more than the rest of the block, and behind its end the first bytes once more, because
      the reader never advances to a second data block. */
  lemma ReadAnswer(d: seq<Block>, it: Iter, f: Obj, done: nat, cnt: nat)
    requires Reading(d, it, f, done)
    ensures var got := Read(d, it, cnt).1;
      && |got| == Min(cnt, CHUNK - From(done))
      && forall i | 0 <= i < |got| ::
           got[i] == if From(done) + i < |f.contents| then f.contents[From(done) + i] else 0
  {
    var n, got, from := ReadStep(d, it, f, done, cnt);
    var b, p := d[f.data[0]], Piece(f.contents, 0);
    forall i | 0 <= i < |got| ensures got[i] == if from + i < |f.contents| then f.contents[from + i] else 0 {
      assert got[i] == b[4 + (from + i)];
      if from + i < |p| { assert b[4..4 + |p|][from + i] == p[from + i]; }
    }
  }

  /** Any reads in a row, of no more bytes than the first data block holds of the file, return its
      contents in order. */
  lemma {:induction false} ReadsExact(d: seq<Block>, it: Iter, f: Obj, done: nat, cnts: seq<nat>)
    requires Reading(d, it, f, done) && done + Sum(cnts) <= Min(CHUNK, |f.contents|)
    ensures ReadAll(d, it, cnts) == f.contents[done..done + Sum(cnts)]
    decreases |cnts|, 1
  {
    var end, p := done + Sum(cnts), Piece(f.contents, 0);
    ReadsTo(d, it, f, done, cnts, end, p);
    assert p[done..end] == f.contents[done..end];
  }

  lemma {:induction false} ReadsTo(d: seq<Block>, it: Iter, f: Obj, done: nat, cnts: seq<nat>, end: nat, p: seq<Byte>)
    requires Reading(d, it, f, done) && p == Piece(f.contents, 0) && end == done + Sum(cnts) && end <= |p|
    ensures ReadAll(d, it, cnts) == p[done..end]
    decreases |cnts|, 0
  {
    if cnts != [] {
      var rest, mid := cnts[1..], done + cnts[0];
      var n := ReadWithin(d, it, f, done, cnts[0], p);
      ReadsTo(d, n, f, mid, rest, end, p);
      ReadAllUnfold(d, it, cnts, n, p[done..mid], p[mid..end]);
      Joined(p, done, mid, end);
    }
  }

  lemma ReadWithin(d: seq<Block>, it: Iter, f: Obj, done: nat, cnt: nat, p: seq<Byte>) returns (n: Iter)
    requires Reading(d, it, f, done) && p == Piece(f.contents, 0) && done + cnt <= |p|
    ensures Read(d, it, cnt) == (n, p[done..done + cnt]) && Reading(d, n, f, done + cnt)
  {
    var got, from;
    n, got, from := ReadStep(d, it, f, done, cnt);
    if done < CHUNK {
      SliceOf(d[f.data[0]], p, done, cnt);
    } else {
      assert got == p[done..done + cnt];
    }
  }

  lemma ReadAllUnfold(d: seq<Block>, it: Iter, cnts: seq<nat>, n: Iter, got: seq<Byte>, rest: seq<Byte>)
    requires cnts != [] && Read(d, it, cnts[0]).0 == n && Read(d, it, cnts[0]).1 == got
    requires ReadAll(d, n, cnts[1..]) == rest
    ensures ReadAll(d, it, cnts) == got + rest
  {
  }

  /** Reading entry i of a directory, when it is a file, returns the start of its contents, up to the
      end of its first data block. */
  lemma ContentsExact(d: seq<Block>, t: Tree, p: nat, i: nat, cnts: seq<nat>)
    requires Rep(d, t) && p in t && t[p].Dir? && i < |t[p].children|
    ensures var c := t[p].children[i];
      c in t && (t[c].File? && Sum(cnts) <= Min(CHUNK, |t[c].contents|) ==>
        ReadAll(d, Visit(d, p, i), cnts) == t[c].contents[..Sum(cnts)])
  {
    VisitShows(d, t, p, i);
    ChildRead(d, t, p, i);
    var it, c := Visit(d, p, i), t[p].children[i];
    assert ObjOk(d, c, t[c]);
    if t[c].File? && Sum(cnts) <= Min(CHUNK, |t[c].contents|) {
      assert EntryAt(it.data, t[c].name, 0) == t[c].data[0];
      ReadsExact(d, it, t[c], 0, cnts);
    }
  }

  // ------------------------------------------------------------------ runs

  /** The operation fits: it succeeds without continuation blocks. */
  ghost predicate Fits(d: seq<Block>, t: Tree, op: Op) {
    match op
    case FileOp(parent, name, contents) => FileFits(d, t, parent, name, contents)
    case DirOp(parent, name) => DirFits(d, t, parent, name)
  }

  /** What the operation means for the tree. */
  function TreeStep(d: seq<Block>, t: Tree, op: Op): (r: Tree)
    requires |d| > 0 && op.parent in t && t[op.parent].Dir?
  {
    var k := FirstFree(d);
    match op
    case FileOp(parent, name, contents) => WithFile(t, parent, k, name, contents)
    case DirOp(parent, name) => WithObj(t, parent, k, Dir(name, []))
  }

  lemma TreeStepRep(d: seq<Block>, t: Tree, op: Op)
    requires Rep(d, t) && Fits(d, t, op)
    ensures NameOk(op.name) && Rep(Step(d, op), TreeStep(d, t, op))
  {
    match op
    case FileOp(parent, name, contents) => AddFileExact(d, t, parent, name, contents);
    case DirOp(parent, name) => AddDirExact(d, t, parent, name);
  }

  lemma TreeStepExtends(d: seq<Block>, t: Tree, op: Op)
    requires |d| > 0 && op.parent in t && t[op.parent].Dir? && FirstFree(d) !in t
    ensures Extends(t, TreeStep(d, t, op))
  {
  }

  /** u holds all of t: files as they were, directories with entries only appended. */
  ghost predicate Extends(t: Tree, u: Tree) {
    forall x | x in t :: x in u && ObjExtends(t[x], u[x])
  }

  predicate ObjExtends(o: Obj, r: Obj) {
    match o
    case File(_, _, _) => r == o
    case Dir(name, children) => r.Dir? && r.name == name && children <= r.children
  }

  lemma ExtendsTrans(t: Tree, u: Tree, v: Tree)
    requires Extends(t, u) && Extends(u, v)
    ensures Extends(t, v)
  {
    forall x | x in t ensures x in v && ObjExtends(t[x], v[x]) {
      assert ObjExtends(t[x], u[x]) && ObjExtends(u[x], v[x]);
    }
  }

  ghost predicate TreeRun(d: seq<Block>, t: Tree, ops: seq<Op>, r: seq<Block>, u: Tree)
    decreases |ops|
  {
    if ops == [] then r == d && u == t
    else Inv(d) && Fits(d, t, ops[0]) && TreeRun(Step(d, ops[0]), TreeStep(d, t, ops[0]), ops[1..], r, u)
  }

  /** On every run of fitting operations the device spells out the tree they build, and what was
      there before stays: names, contents, and entries in their places. */
  lemma {:induction false} TreeRunRep(d: seq<Block>, t: Tree, ops: seq<Op>, r: seq<Block>, u: Tree)
    requires Rep(d, t) && TreeRun(d, t, ops, r, u)
    ensures Rep(r, u) && Extends(t, u)
    decreases |ops|
  {
    if ops != [] {
      TreeStepRep(d, t, ops[0]);
      TreeStepExtends(d, t, ops[0]);
      TreeRunRep(Step(d, ops[0]), TreeStep(d, t, ops[0]), ops[1..], r, u);
      ExtendsTrans(t, TreeStep(d, t, ops[0]), u);
    }
  }
}
