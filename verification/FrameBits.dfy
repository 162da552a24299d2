/** The frame bitmap as the object that updates its words in place (src/bits.cpp). */
module FrameBits {
  import opened Basics
  import opened B = Bits

  class FrameBits {
    const bits: array<Word>
    const cnt: nat
    var last: nat

    ghost function Abs(): (b: Bitmap)
      reads this, bits
    {
      Bitmap(bits[..], cnt, last)
    }

    ghost predicate Valid()
      reads this, bits
    {
      HintOk(Abs())
    }

    constructor (n: nat)
      ensures Valid() && cnt == n && last == 0 && fresh(bits)
      ensures forall k | 0 <= k < WORD * bits.Length :: !IsSet(bits[..], k)
    {
      var len := n / WORD;
      if n % WORD != 0 { len := len + 1; }
      cnt, last := n, 0;
      bits := new Word[len](_ => ZERO);
      new;
      ClearAll();
    }

    /** clearAll (src/bits.cpp:18-23) does not touch the hint, which stays sound only if it was 0. */
    method ClearAll()
      requires Shaped(Abs())
      modifies bits
      ensures forall k | 0 <= k < WORD * bits.Length :: !IsSet(bits[..], k)
      ensures Valid() <==> last == 0
    {
      for i := 0 to bits.Length
        invariant forall k | 0 <= k < i :: bits[k] == ZERO
      {
        bits[i] := ZERO;
      }
      if last > 0 { assert Offers(bits[..], 0); }
    }

    method Set(i: nat) returns (ok: bool)
      requires Valid()
      modifies bits
      ensures Valid() && Abs() == B.Set(old(Abs()), i) && ok == (i < cnt)
    {
      ghost var b := Abs();
      if i >= cnt { return false; }
      bits[i / WORD] := bits[i / WORD][i % WORD := true];
      assert Abs() == B.Set(b, i);
      StepHint(b, SetOp(i));
      ok := true;
    }

    method Clear(i: nat) returns (ok: bool)
      requires Valid()
      modifies `last, bits
      ensures Valid() && Abs() == B.Clear(old(Abs()), i) && ok == (i < cnt)
    {
      ghost var b := Abs();
      if i >= cnt { return false; }
      bits[i / WORD] := bits[i / WORD][i % WORD := false];
      last := 0;
      assert Abs() == B.Clear(b, i);
      ok := true;
    }

    method Test(i: nat) returns (r: bool)
      requires Valid()
      ensures r <==> i < cnt && IsSet(bits[..], i)
    {
      if i >= cnt { return false; }
      r := bits[i / WORD][i % WORD];
    }

    /** The inner loop: the least clear bit of a word, bit 31 left aside. */
    method FindInWord(w: Word) returns (r: Option<nat>)
      ensures r == ScanWord(w, 0)
    {
      if false !in w {
        AllOnes(w);
        return None;
      }
      for j := 0 to WORD - 1
        invariant ScanWord(w, 0) == ScanWord(w, j)
      {
        if !w[j] { return Some(j); }
      }
      r := None;
    }

    /** findUnset (src/bits.cpp:69-98). The wrap-around at its end is dead code: inside the loop i
        is always below the length. */
    method FindUnset() returns (r: nat, ok: bool)
      requires Valid()
      modifies `last
      ensures Valid() && (Abs(), if ok then Some(r) else None) == B.FindUnset(old(Abs()))
      ensures Least(bits[..], 0, if ok then Some(r) else None)
    {
      ghost var b := Abs();
      HintedEqualsFull(b);
      StepHint(b, FindOp);
      var i, j;
      i, j, ok := SearchWords(Scan(b.words, b.last));
      FoundAt(b, i, j, ok);
      if !ok { return 0, false; }
      last := i;
      r := i * WORD + j;
    }

    /** The loop over the words; goal is what it finds: bit j of word i, or nothing. */
    method SearchWords(ghost goal: Option<nat>) returns (i: nat, j: nat, ok: bool)
      requires last <= bits.Length && goal == Scan(bits[..], last)
      ensures j < WORD && (ok ==> i < bits.Length && goal == Some(i * WORD + j))
      ensures !ok ==> goal == None
    {
      i, j, ok := last, 0, false;
      ghost var ws := bits[..];
      while i < bits.Length
        invariant i <= bits.Length && goal == Scan(ws, i)
      {
        var found := FindInWord(bits[i]);
        ScanOne(ws, i, found, goal);
        if found.Some? { return i, found.value, true; }
        i := i + 1;
      }
    }
  }

  /** The search as what its loop finds. */
  lemma FoundAt(b: Bitmap, i: nat, j: nat, ok: bool)
    requires B.Shaped(b) && j < WORD && Scan(b.words, b.last) == if ok then Some(i * WORD + j) else None
    ensures B.FindUnset(b) == if ok then (b.(last := i), Some(i * WORD + j)) else (b, None)
  {
  }

  /** One word of the scan. */
  lemma ScanOne(ws: seq<Word>, i: nat, found: Option<nat>, goal: Option<nat>)
    requires i < |ws| && found == ScanWord(ws[i], 0) && goal == Scan(ws, i)
    ensures found.Some? ==> found.value < WORD && goal == Some(i * WORD + found.value)
    ensures found.None? ==> goal == Scan(ws, i + 1)
  {
  }
}
