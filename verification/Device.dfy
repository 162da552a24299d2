/** The block device behind both file systems: 512-byte blocks, one sector each, found by 32-bit
    byte positions that wrap (getBlock, src/fs/clothesfs.cpp:84-118, src/fs/ustar.cpp:109-125). */
module Device {
  import opened Basics
  import opened Bytes

  const BS := 512
  const MAX_BLOCKS := 0x80_0000  // 4 GiB of blocks

  type Block = b: seq<Byte> | |b| == BS witness seq(BS, _ => 0)

  function Zeros(): (b: Block)
    ensures forall i | 0 <= i < BS :: b[i] == 0
  {
    seq(BS, _ => 0)
  }

  /** The block a 32-bit byte position of index * 512 falls on. */
  function Slot(index: nat): (s: nat)
    ensures index < MAX_BLOCKS ==> s == index
  {
    if index < MAX_BLOCKS then index else index % MAX_BLOCKS
  }

  /** getBlock and putBlock: one sector at the wrapped position; false past the end. */
  function Get(d: seq<Block>, index: nat): (b: Option<Block>) {
    if Slot(index) < |d| then Some(d[Slot(index)]) else None
  }

  function Put(d: seq<Block>, index: nat, b: Block): (r: seq<Block>)
    requires Slot(index) < |d|
    ensures |r| == |d| && r[Slot(index)] == b && forall i | 0 <= i < |d| && i != Slot(index) :: r[i] == d[i]
  {
    d[Slot(index) := b]
  }

  /** The bytes that a sequence of reads asks for. */
  function Sum(cnts: seq<nat>): (n: nat) {
    if cnts == [] then 0 else cnts[0] + Sum(cnts[1..])
  }

  lemma Joined(c: seq<Byte>, lo: nat, mid: nat, hi: nat)
    requires lo <= mid <= hi <= |c|
    ensures c[lo..mid] + c[mid..hi] == c[lo..hi]
  {
  }

  lemma SubSlice(s: seq<Byte>, a: nat, b: nat, lo: nat, hi: nat)
    requires a <= b <= |s| && lo <= hi <= b - a
    ensures s[a..b][lo..hi] == s[a + lo..a + hi]
  {
    var t := s[a..b];
    var u, v := t[lo..hi], s[a + lo..a + hi];
    forall i | 0 <= i < hi - lo ensures u[i] == v[i] {
      assert u[i] == t[lo + i] == s[a + (lo + i)];
    }
  }
}
