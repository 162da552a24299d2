/** The frame bitmap with its search hint (src/bits.cpp). */
module Bits {
  import opened Basics

  const WORD := 32

  /** A 32-bit word by its bits, least significant first. */
  type Word = w: seq<bool> | |w| == WORD witness seq(WORD, _ => false)

  const ZERO: Word := seq(WORD, _ => false)

  /** words, the number of bits in use, and the word where the last search ended. */
  datatype Bitmap = Bitmap(words: seq<Word>, cnt: nat, last: nat)

  /** The word with only bit 0 set. */
  function FirstBit(): (w: Word)
    ensures forall j | 0 <= j < WORD :: w[j] == (j == 0)
  {
    seq(WORD, j => j == 0)
  }

  predicate BitSet(w: Word, j: nat)
    requires j < WORD
  {
    w[j]
  }

  predicate IsSet(ws: seq<Word>, i: nat)
    requires i < WORD * |ws|
  {
    BitSet(ws[i / WORD], i % WORD)
  }

  // ------------------------------------------------------------------ the bitmap

  predicate Shaped(b: Bitmap) {
    |b.words| * WORD >= b.cnt > (|b.words| - 1) * WORD && b.last <= |b.words|
  }

  /** set (src/bits.cpp:25-37): refused past the end. */
  function Set(b: Bitmap, i: nat): (r: Bitmap)
    requires Shaped(b)
    ensures Shaped(r) && r.cnt == b.cnt && |r.words| == |b.words| && r.last == b.last
  {
    if i >= b.cnt then b
    else b.(words := b.words[i / WORD := b.words[i / WORD][i % WORD := true]])
  }

  /** clear (src/bits.cpp:39-52): also forgets the hint. */
  function Clear(b: Bitmap, i: nat): (r: Bitmap)
    requires Shaped(b)
    ensures Shaped(r) && r.cnt == b.cnt && |r.words| == |b.words|
  {
    if i >= b.cnt then b
    else b.(words := b.words[i / WORD := b.words[i / WORD][i % WORD := false]], last := 0)
  }

  /** Setting and clearing touch exactly the bit asked for, and nothing past the end. */
  lemma SetExact(b: Bitmap, i: nat, k: nat)
    requires Shaped(b) && k < WORD * |b.words|
    ensures IsSet(Set(b, i).words, k) <==> IsSet(b.words, k) || (k == i && i < b.cnt)
    ensures IsSet(Clear(b, i).words, k) <==> IsSet(b.words, k) && !(k == i && i < b.cnt)
  {
    assert i / WORD == k / WORD && i % WORD == k % WORD ==> i == k;
  }

  /** The bits the search can offer: clear, and not the top bit of a word (src/bits.cpp:75). */
  predicate Offers(ws: seq<Word>, i: nat) {
    i < WORD * |ws| && i % WORD != WORD - 1 && !IsSet(ws, i)
  }

  /** i is the least bit on offer at or above from, or there is none. */
  ghost predicate Least(ws: seq<Word>, from: nat, r: Option<nat>) {
    match r
    case Some(i) => from <= i && Offers(ws, i) && forall k | from <= k < i :: !Offers(ws, k)
    case None => forall k | from <= k :: !Offers(ws, k)
  }

  /** The scan of one word: the least clear bit below 31 from j on. */
  function ScanWord(w: Word, j: nat): (r: Option<nat>)
    requires j <= WORD - 1
    ensures r.Some? ==> j <= r.value < WORD - 1 && !BitSet(w, r.value) && forall k | j <= k < r.value :: BitSet(w, k)
    ensures r.None? ==> forall k | j <= k < WORD - 1 :: BitSet(w, k)
    decreases WORD - j
  {
    if j == WORD - 1 then None
    else if !BitSet(w, j) then Some(j)
    else ScanWord(w, j + 1)
  }

  /** The scan over the words from i on. */
  function Scan(ws: seq<Word>, i: nat): (r: Option<nat>)
    requires i <= |ws|
    decreases |ws| - i
  {
    if i == |ws| then None
    else
      match ScanWord(ws[i], 0)
      case Some(j) => Some(i * WORD + j)
      case None => Scan(ws, i + 1)
  }

  lemma {:induction false} ScanLeast(ws: seq<Word>, i: nat)
    requires i <= |ws|
    ensures Least(ws, i * WORD, Scan(ws, i))
    decreases |ws| - i
  {
    if i < |ws| {
      var w := ScanWord(ws[i], 0);
      forall k | i * WORD <= k < (i + 1) * WORD ensures k / WORD == i && k % WORD == k - i * WORD {}
      if w.None? {
        ScanLeast(ws, i + 1);
      }
    }
  }

  /** findUnset (src/bits.cpp:69-98): search from the hint, which moves to the word found. */
  function FindUnset(b: Bitmap): (r: (Bitmap, Option<nat>))
    requires Shaped(b)
    ensures r.0.words == b.words && r.0.cnt == b.cnt && Shaped(r.0)
  {
    var found := Scan(b.words, b.last);
    if found.None? then (b, None)
    else
      ScanLeast(b.words, b.last);
      (b.(last := found.value / WORD), found)
  }

  // ------------------------------------------------------------------ the hint

  /** Every word below the hint has its low 31 bits set. */
  ghost predicate HintOk(b: Bitmap) {
    Shaped(b) && forall k | 0 <= k < b.last * WORD :: !Offers(b.words, k)
  }

  /** With a sound hint the search equals the full scan from 0, and its answer is the least bit
      on offer, or none when there is none. */
  lemma HintedEqualsFull(b: Bitmap)
    requires HintOk(b)
    ensures FindUnset(b).1 == Scan(b.words, 0) && Least(b.words, 0, FindUnset(b).1)
  {
    ScanLeast(b.words, b.last);
    ScanLeast(b.words, 0);
    var x, y := Scan(b.words, b.last), Scan(b.words, 0);
    assert Least(b.words, 0, x);
    LeastUnique(b.words, x, y);
  }

  lemma LeastUnique(ws: seq<Word>, x: Option<nat>, y: Option<nat>)
    requires Least(ws, 0, x) && Least(ws, 0, y)
    ensures x == y
  {
    if x.Some? && y.Some? {
      assert !(x.value < y.value) && !(y.value < x.value);
    }
  }

  datatype Op = SetOp(i: nat) | ClearOp(i: nat) | FindOp

  function Step(b: Bitmap, op: Op): (r: Bitmap)
    requires Shaped(b)
    ensures Shaped(r)
  {
    match op
    case SetOp(i) => Set(b, i)
    case ClearOp(i) => Clear(b, i)
    case FindOp => FindUnset(b).0
  }

  lemma StepHint(b: Bitmap, op: Op)
    requires HintOk(b)
    ensures HintOk(Step(b, op))
  {
    match op
    case SetOp(i) =>
      forall k | 0 <= k < b.last * WORD ensures !Offers(Set(b, i).words, k) {
        assert !Offers(b.words, k);
        SetExact(b, i, k);
      }
    case ClearOp(i) =>
    case FindOp =>
      ScanLeast(b.words, b.last);
  }

  function Run(b: Bitmap, ops: seq<Op>): (r: Bitmap)
    requires Shaped(b)
    ensures Shaped(r)
    decreases |ops|
  {
    if ops == [] then b else Run(Step(b, ops[0]), ops[1..])
  }

  /** On every run of set, clear and findUnset the hint stays sound. */
  lemma {:induction false} RunHint(b: Bitmap, ops: seq<Op>)
    requires HintOk(b)
    ensures HintOk(Run(b, ops))
    decreases |ops|
  {
    if ops != [] {
      StepHint(b, ops[0]);
      RunHint(Step(b, ops[0]), ops[1..]);
    }
  }

  // ------------------------------------------------------------------ padding bits

  /** The search answers a bit that set() then refuses exactly when no bit in use is on offer. */
  lemma PaddingOffered(b: Bitmap)
    requires HintOk(b) && FindUnset(b).1.Some?
    ensures FindUnset(b).1.value >= b.cnt <==> forall k | 0 <= k < b.cnt :: !Offers(b.words, k)
  {
    HintedEqualsFull(b);
  }

  predicate SafeCount(cnt: nat) {
    cnt % WORD == 0 || cnt % WORD == WORD - 1
  }

  /** For a safe count the search never answers past the end. */
  lemma SafeCountInside(b: Bitmap)
    requires HintOk(b) && SafeCount(b.cnt) && FindUnset(b).1.Some?
    ensures FindUnset(b).1.value < b.cnt
  {
    ScanLeast(b.words, b.last);
  }

  /** All bits in use set, padding clear: what a full bitmap of cnt bits looks like. */
  ghost predicate FullBitmap(b: Bitmap) {
    HintOk(b) && b.last == 0 && forall k | 0 <= k < WORD * |b.words| :: IsSet(b.words, k) <==> k < b.cnt
  }

  /** For any other count a full bitmap makes it answer a padding bit, and neither setting that bit nor
      searching again changes anything, so every later search answers it too. */
  lemma UnsafeCountRepeats(b: Bitmap)
    requires FullBitmap(b) && !SafeCount(b.cnt)
    ensures var (c, found) := FindUnset(b);
      && found == Some(b.cnt)
      && Set(c, b.cnt) == c
      && FindUnset(c) == (c, found)
  {
    HintedEqualsFull(b);
    assert Offers(b.words, b.cnt);
    var c := FindUnset(b).0;
    StepHint(b, FindOp);
    HintedEqualsFull(c);
  }

  /** A word without a clear bit offers nothing. */
  lemma AllOnes(w: Word)
    requires false !in w
    ensures ScanWord(w, 0) == None
  {
  }

  /** One bit in use, and set: the search answers bit 1, which set refuses, for ever. */
  lemma OneBitRepeats()
    ensures var b := Bitmap([FirstBit()], 1, 0);
      && FullBitmap(b) && !SafeCount(b.cnt)
      && FindUnset(b).1 == Some(1) && Set(FindUnset(b).0, 1) == FindUnset(b).0
  {
    var b := Bitmap([FirstBit()], 1, 0);
    assert forall k | 0 <= k < WORD :: IsSet(b.words, k) == (k == 0);
    UnsafeCountRepeats(b);
  }
}
