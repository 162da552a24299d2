/** Byte copies in memory (src/string.cpp:9-39). */
module Memory {
  import opened Bytes

  /** The machine's memory, written in place. */
  class Ram {
    var bytes: seq<Byte>

    constructor (size: nat)
      ensures |bytes| == size
    {
      bytes := seq(size, _ => 0);
    }
  }

  /** Memory with the n bytes at src also at dest: what a move is for. */
  function Moved(m: seq<Byte>, dest: nat, src: nat, n: nat): (r: seq<Byte>)
    requires dest + n <= |m| && src + n <= |m|
  {
    Splice(m, dest, m[src..src + n])
  }

  /** The source offset whose old byte a front-to-back copy leaves at offset k: copying upwards
      over itself repeats the first dest - src bytes. */
  function Origin(dest: nat, src: nat, k: nat): (r: nat)
    ensures r <= k
    ensures src < dest ==> r < dest - src
    decreases k
  {
    if src < dest <= src + k then Origin(dest, src, src + k - dest) else k
  }

  /** r is m after a front-to-back copy. */
  ghost predicate Copied(m: seq<Byte>, r: seq<Byte>, dest: nat, src: nat, n: nat)
    requires dest + n <= |m| && src + n <= |m|
  {
    && |r| == |m|
    && (forall k | 0 <= k < |m| && !(dest <= k < dest + n) :: r[k] == m[k])
    && (forall k | dest <= k < dest + n :: r[k] == m[src + Origin(dest, src, k - dest)])
  }

  /** A front-to-back copy is a move unless the destination starts inside the source. */
  lemma CopiedMoved(m: seq<Byte>, r: seq<Byte>, dest: nat, src: nat, n: nat)
    requires dest + n <= |m| && src + n <= |m| && Copied(m, r, dest, src, n)
    requires dest <= src || src + n <= dest
    ensures r == Moved(m, dest, src, n)
  {
    var w := Moved(m, dest, src, n);
    forall k | 0 <= k < |m| ensures r[k] == w[k] {
      MovedAt(m, w, dest, src, n, k);
      CopiedAt(m, r, dest, src, n, k);
    }
  }

  /** What a move leaves at address k. */
  function ByteAt(m: seq<Byte>, dest: nat, src: nat, n: nat, k: nat): (b: Byte)
    requires dest + n <= |m| && src + n <= |m| && k < |m|
  {
    if dest <= k < dest + n then m[src + (k - dest)] else m[k]
  }

  lemma MovedAt(m: seq<Byte>, w: seq<Byte>, dest: nat, src: nat, n: nat, k: nat)
    requires dest + n <= |m| && src + n <= |m| && k < |m| && w == Moved(m, dest, src, n)
    ensures w[k] == ByteAt(m, dest, src, n, k)
  {
    if dest <= k < dest + n { assert w[k] == w[dest..dest + n][k - dest] == m[src..src + n][k - dest]; }
  }

  lemma MovedOutside(m: seq<Byte>, w: seq<Byte>, dest: nat, src: nat, n: nat)
    requires dest + n <= |m| && src + n <= |m| && w == Moved(m, dest, src, n)
    ensures |w| == |m| && forall k | 0 <= k < |m| && !(dest <= k < dest + n) :: w[k] == m[k]
  {
  }

  lemma CopiedAt(m: seq<Byte>, r: seq<Byte>, dest: nat, src: nat, n: nat, k: nat)
    requires dest + n <= |m| && src + n <= |m| && k < |m| && Copied(m, r, dest, src, n)
    requires dest <= src || src + n <= dest
    ensures r[k] == ByteAt(m, dest, src, n, k)
  {
    if dest <= k < dest + n { OriginApart(dest, src, n, k - dest); }
  }

  /** Nothing is copied from bytes copied before. */
  lemma OriginApart(dest: nat, src: nat, n: nat, k: nat)
    requires k < n && (dest <= src || src + n <= dest)
    ensures Origin(dest, src, k) == k
  {
  }

  /** Mem::copy, front to back; 0 is the null pointer. */
  method Copy(ram: Ram, dest: nat, src: nat, n: nat) returns (r: nat)
    requires dest + n <= |ram.bytes| && src + n <= |ram.bytes|
    modifies ram
    ensures r == if dest == src then dest else if dest == 0 || src == 0 then 0 else dest
    ensures if dest == src || r == 0 then ram.bytes == old(ram.bytes)
            else Copied(old(ram.bytes), ram.bytes, dest, src, n)
  {
    ghost var was := ram.bytes;
    if dest == src { return dest; }
    if dest == 0 || src == 0 { return 0; }
    for i := 0 to n
      invariant Copied(was, ram.bytes, dest, src, i)
    {
      ram.bytes := ram.bytes[dest + i := ram.bytes[src + i]];
    }
    r := dest;
  }

  /** Mem::move: back to front when the destination lies above, so right for every overlap. */
  method Move(ram: Ram, dest: nat, src: nat, n: nat) returns (r: nat)
    requires dest + n <= |ram.bytes| && src + n <= |ram.bytes|
    modifies ram
    ensures |ram.bytes| == old(|ram.bytes|)
    ensures r == if dest == 0 || src == 0 then 0 else dest
    ensures ram.bytes == if dest == 0 || src == 0 then old(ram.bytes) else Moved(old(ram.bytes), dest, src, n)
  {
    if dest == 0 || src == 0 { return 0; }
    ghost var was := ram.bytes;
    if dest > src {
      for i := 0 to n
        invariant |ram.bytes| == |was|
        invariant forall k | 0 <= k < |ram.bytes| && !(dest + n - i <= k < dest + n) :: ram.bytes[k] == was[k]
        invariant forall k | dest + n - i <= k < dest + n :: ram.bytes[k] == was[k - dest + src]
      {
        ram.bytes := ram.bytes[dest + n - 1 - i := ram.bytes[src + n - 1 - i]];
      }
      assert ram.bytes == Moved(old(ram.bytes), dest, src, n);
      r := dest;
    } else {
      r := Copy(ram, dest, src, n);
      if dest < src { CopiedMoved(was, ram.bytes, dest, src, n); }
      assert ram.bytes == Moved(was, dest, src, n);
    }
  }
}
