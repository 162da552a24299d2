/** The flags of add, adc, sub, sbb and cmp in the x86 emulator (3rdparty/my_x86emu/x86emu.c) and
    the conditional jumps on them. The emulator gets overflow and auxiliary carry from a formula
    for the carries; here that formula is shown to be the ripple carries, at any width. */
module Flags {

  // ------------------------------------------------------------------ bits

  function Pow2(n: nat): (r: nat)
    ensures r > 0
  {
    if n == 0 then 1 else 2 * Pow2(n - 1)
  }

  lemma {:induction false} Pow2Add(m: nat, n: nat)
    ensures Pow2(m + n) == Pow2(m) * Pow2(n)
  {
    if m > 0 { Pow2Add(m - 1, n); }
  }

  function I(b: bool): (r: nat) {
    if b then 1 else 0
  }

  /** The n low bits of an integer in two's complement, least significant first. */
  function Bits(x: int, n: nat): (w: seq<bool>)
    ensures |w| == n
    decreases n
  {
    if n == 0 then [] else [x % 2 == 1] + Bits(x / 2, n - 1)
  }

  function Val(w: seq<bool>): (v: nat) {
    if w == [] then 0 else I(w[0]) + 2 * Val(w[1..])
  }

  /** x modulo 2^n. */
  function Low(x: int, n: nat): (v: nat) {
    Val(Bits(x, n))
  }

  lemma {:induction false} LowBound(x: int, n: nat)
    ensures Low(x, n) < Pow2(n)
    decreases n
  {
    if n > 0 {
      LowBound(x / 2, n - 1);
      assert Bits(x, n)[1..] == Bits(x / 2, n - 1);
    }
  }

  /** One more bit. */
  lemma {:induction false} LowStep(x: int, n: nat)
    ensures Low(x, n + 1) == Low(x, n) + Pow2(n) * I(Bits(x, n + 1)[n])
    decreases n
  {
    assert Bits(x, n + 1)[1..] == Bits(x / 2, n);
    if n > 0 {
      LowStep(x / 2, n - 1);
      assert Bits(x, n)[1..] == Bits(x / 2, n - 1);
    }
  }

  /** Low is the remainder: x differs from it by a multiple of 2^n. */
  lemma {:induction false} LowMod(x: int, n: nat) returns (k: int)
    ensures x == Low(x, n) + Pow2(n) * k
    decreases n
  {
    k := x;
    if n > 0 {
      k := LowMod(x / 2, n - 1);
      assert Bits(x, n)[1..] == Bits(x / 2, n - 1);
      assert Pow2(n) * k == 2 * (Pow2(n - 1) * k);
    }
  }

  lemma {:induction false} LowSame(x: nat, n: nat)
    requires x < Pow2(n)
    ensures Low(x, n) == x
  {
    if n > 0 {
      LowSame(x / 2, n - 1);
      assert Bits(x, n)[1..] == Bits(x / 2, n - 1);
    }
  }

  /** An n-bit number read as signed. */
  function Signed(x: nat, n: nat): (v: int)
    requires n > 0
  {
    if x < Pow2(n - 1) then x else x - Pow2(n)
  }

  predicate Fits(v: int, n: nat)
    requires n > 0
  {
    0 - Pow2(n - 1) <= v < Pow2(n - 1)
  }

  // ------------------------------------------------------------------ addition

  function Maj(a: bool, b: bool, c: bool): (r: bool) {
    (a && b) || (a && c) || (b && c)
  }

  /** The carries out of every position of a ripple adder. */
  function Carries(d: seq<bool>, s: seq<bool>, c: bool): (r: seq<bool>)
    requires |d| == |s|
    ensures |r| == |d|
  {
    if d == [] then [] else [Maj(d[0], s[0], c)] + Carries(d[1..], s[1..], Maj(d[0], s[0], c))
  }

  /** The sum bits of the adder. */
  function Ripple(d: seq<bool>, s: seq<bool>, c: bool): (r: seq<bool>)
    requires |d| == |s|
    ensures |r| == |d|
  {
    if d == [] then [] else [d[0] != (s[0] != c)] + Ripple(d[1..], s[1..], Maj(d[0], s[0], c))
  }

  /** The emulator's formula for the carries, from operands and result: (s & d) | (~res & (s | d)). */
  function CarryChain(d: seq<bool>, s: seq<bool>, r: seq<bool>): (cc: seq<bool>)
    requires |d| == |s| == |r|
    ensures |cc| == |d|
  {
    if d == [] then []
    else [(s[0] && d[0]) || (!r[0] && (s[0] || d[0]))] + CarryChain(d[1..], s[1..], r[1..])
  }

  /** The formula gives the ripple carries. */
  lemma {:induction false} ChainIsRipple(d: seq<bool>, s: seq<bool>, c: bool)
    requires |d| == |s|
    ensures CarryChain(d, s, Ripple(d, s, c)) == Carries(d, s, c)
  {
    if d != [] {
      ChainIsRipple(d[1..], s[1..], Maj(d[0], s[0], c));
    }
  }

  /** Half of a sum is the sum of the halves with the carry. */
  lemma HalfSum(d: int, s: int, c: bool)
    ensures var m := Maj(d % 2 == 1, s % 2 == 1, c);
      && (d + s + I(c)) / 2 == d / 2 + s / 2 + I(m)
      && ((d + s + I(c)) % 2 == 1) == ((d % 2 == 1) != ((s % 2 == 1) != c))
  {
  }

  /** The adder adds. */
  lemma {:induction false} RippleAdds(d: int, s: int, c: bool, n: nat)
    ensures Bits(d + s + I(c), n) == Ripple(Bits(d, n), Bits(s, n), c)
    decreases n
  {
    if n > 0 {
      HalfSum(d, s, c);
      RippleAdds(d / 2, s / 2, Maj(d % 2 == 1, s % 2 == 1, c), n - 1);
      Shift(d, n);
      Shift(s, n);
    }
  }

  lemma CarryChainExact(d: int, s: int, c: bool, n: nat)
    ensures CarryChain(Bits(d, n), Bits(s, n), Bits(d + s + I(c), n)) == Carries(Bits(d, n), Bits(s, n), c)
  {
    RippleAdds(d, s, c, n);
    ChainIsRipple(Bits(d, n), Bits(s, n), c);
  }

  lemma Shift(x: int, n: nat)
    requires n > 0
    ensures Bits(x, n)[0] == (x % 2 == 1) && Bits(x, n)[1..] == Bits(x / 2, n - 1)
    ensures Low(x, n) == I(x % 2 == 1) + 2 * Low(x / 2, n - 1)
  {
  }

  /** The carry out of the low k bits is set when their sum reaches 2^k. */
  lemma {:induction false} CarryMeans(d: int, s: int, c: bool, n: nat, k: nat)
    requires 0 < k <= n
    ensures Carries(Bits(d, n), Bits(s, n), c)[k - 1] <==> Low(d, k) + Low(s, k) + I(c) >= Pow2(k)
    decreases n
  {
    var m := Maj(d % 2 == 1, s % 2 == 1, c);
    Shift(d, n);
    Shift(s, n);
    Shift(d, k);
    Shift(s, k);
    if k > 1 { CarryMeans(d / 2, s / 2, m, n - 1, k - 1); }
  }

  /** The top bit splits an n-bit number and decides its sign. */
  lemma Top(x: nat, n: nat)
    requires n > 0 && x < Pow2(n)
    ensures Low(x, n - 1) == if x < Pow2(n - 1) then x else x - Pow2(n - 1)
    ensures Signed(x, n) < 0 <==> Bits(x, n)[n - 1]
  {
    LowSame(x, n);
    LowStep(x, n - 1);
    LowBound(x, n - 1);
  }

  /** The two highest carries differ exactly when the signed sum leaves the range. */
  lemma AddOverflow(d: nat, s: nat, c: bool, n: nat)
    requires n >= 2 && d < Pow2(n) && s < Pow2(n)
    ensures var cc := Carries(Bits(d, n), Bits(s, n), c);
      && (cc[n - 1] <==> d + s + I(c) >= Pow2(n))
      && (cc[n - 1] != cc[n - 2] <==> !Fits(Signed(d, n) + Signed(s, n) + I(c), n))
  {
    CarryMeans(d, s, c, n, n);
    CarryMeans(d, s, c, n, n - 1);
    LowSame(d, n);
    LowSame(s, n);
    Top(d, n);
    Top(s, n);
    SignedRange(d, s, I(c), n);
  }

  /** Both carries in terms of the operands' halves. */
  lemma SignedRange(d: nat, s: nat, c: nat, n: nat)
    requires n >= 2 && d < Pow2(n) && s < Pow2(n) && c <= 1
    ensures var h := Pow2(n - 1);
      var ld, ls := if d < h then d else d - h, if s < h then s else s - h;
      ((d + s + c >= Pow2(n)) != (ld + ls + c >= h)) <==> !Fits(Signed(d, n) + Signed(s, n) + c, n)
  {
    assert Pow2(n) == 2 * Pow2(n - 1);
  }

  // ------------------------------------------------------------------ subtraction

  /** The formula for the borrows: (res & (~d | s)) | (~d & s). */
  function BorrowChain(d: seq<bool>, s: seq<bool>, r: seq<bool>): (bc: seq<bool>)
    requires |d| == |s| == |r|
    ensures |bc| == |d|
  {
    if d == [] then []
    else [(r[0] && (!d[0] || s[0])) || (!d[0] && s[0])] + BorrowChain(d[1..], s[1..], r[1..])
  }

  function Flip(x: int): (r: int) {
    -1 - x
  }

  function Not(w: seq<bool>): (r: seq<bool>)
    ensures |r| == |w|
  {
    if w == [] then [] else [!w[0]] + Not(w[1..])
  }

  /** Complementing every bit of x gives -1 - x. */
  lemma {:induction false} Complement(x: int, n: nat)
    ensures Bits(Flip(x), n) == Not(Bits(x, n))
    ensures Low(Flip(x), n) == Pow2(n) - 1 - Low(x, n)
    decreases n
  {
    if n > 0 {
      assert Flip(x) / 2 == Flip(x / 2);
      Complement(x / 2, n - 1);
      Shift(x, n);
      Shift(Flip(x), n);
    }
  }

  lemma {:induction false} Dual(d: seq<bool>, s: seq<bool>, r: seq<bool>)
    requires |d| == |s| == |r|
    ensures BorrowChain(d, s, r) == CarryChain(Not(d), s, Not(r))
  {
    if d != [] { Dual(d[1..], s[1..], r[1..]); }
  }

  /** A borrow of d - s is a carry of ~d + s, and the formulas agree. */
  lemma BorrowChainExact(d: int, s: int, b: bool, n: nat)
    ensures BorrowChain(Bits(d, n), Bits(s, n), Bits(d - s - I(b), n)) == Carries(Bits(Flip(d), n), Bits(s, n), b)
  {
    CarryChainExact(Flip(d), s, b, n);
    Complement(d, n);
    Complement(d - s - I(b), n);
    assert Flip(d - s - I(b)) == Flip(d) + s + I(b);
    Dual(Bits(d, n), Bits(s, n), Bits(d - s - I(b), n));
  }

  lemma BorrowMeans(d: int, s: int, b: bool, n: nat, k: nat)
    requires 0 < k <= n
    ensures Carries(Bits(Flip(d), n), Bits(s, n), b)[k - 1] <==> Low(d, k) < Low(s, k) + I(b)
  {
    CarryMeans(Flip(d), s, b, n, k);
    Complement(d, k);
  }

  lemma SubOverflow(d: nat, s: nat, b: bool, n: nat)
    requires n >= 2 && d < Pow2(n) && s < Pow2(n)
    ensures var bc := Carries(Bits(Flip(d), n), Bits(s, n), b);
      && (bc[n - 1] <==> d < s + I(b))
      && (bc[n - 1] != bc[n - 2] <==> !Fits(Signed(d, n) - Signed(s, n) - I(b), n))
  {
    BorrowMeans(d, s, b, n, n);
    BorrowMeans(d, s, b, n, n - 1);
    LowSame(d, n);
    LowSame(s, n);
    Top(d, n);
    Top(s, n);
    SignedGap(d, s, I(b), n);
  }

  /** Both borrows in terms of the operands' halves. */
  lemma SignedGap(d: nat, s: nat, b: nat, n: nat)
    requires n >= 2 && d < Pow2(n) && s < Pow2(n) && b <= 1
    ensures var h := Pow2(n - 1);
      var ld, ls := if d < h then d else d - h, if s < h then s else s - h;
      ((d < s + b) != (ld < ls + b)) <==> !Fits(Signed(d, n) - Signed(s, n) - b, n)
  {
    assert Pow2(n) == 2 * Pow2(n - 1);
  }

  // ------------------------------------------------------------------ flags

  datatype Flags = Flags(cf: bool, pf: bool, af: bool, zf: bool, sf: bool, of: bool)

  /** An even number of ones. */
  predicate Even(w: seq<bool>) {
    if w == [] then true else w[0] != Even(w[1..])
  }

  lemma {:induction false} EvenCounts(w: seq<bool>)
    ensures Even(w) <==> multiset(w)[true] % 2 == 0
    decreases |w|
  {
    if w != [] {
      EvenCounts(w[1..]);
      assert w == [w[0]] + w[1..];
    }
  }

  /** What the flags mean for an exact result v of n-bit operands whose signed reading is sv; low
      tells whether the low four bits overflowed. */
  function Meaning(n: nat, v: int, sv: int, low: bool): (f: Flags)
    requires n >= 8
  {
    var r := Low(v, n);
    Flags(!(0 <= v < Pow2(n)), Even(Bits(v, n)[..8]), low, r == 0, Signed(r, n) < 0, !Fits(sv, n))
  }

  function AddFlags(n: nat, d: nat, s: nat, c: bool): (f: Flags)
    requires n >= 8
  {
    Meaning(n, d + s + I(c), Signed(d, n) + Signed(s, n) + I(c), d % 16 + s % 16 + I(c) >= 16)
  }

  function SubFlags(n: nat, d: nat, s: nat, b: bool): (f: Flags)
    requires n >= 8
  {
    Meaning(n, d - s - I(b), Signed(d, n) - Signed(s, n) - I(b), d % 16 < s % 16 + I(b))
  }

  lemma LowNibble(x: nat)
    ensures Low(x, 4) == x % 16
  {
    var k := LowMod(x, 4);
    LowBound(x, 4);
    Nibble(x, Low(x, 4), k, Pow2(4));
  }

  lemma Nibble(x: nat, low: nat, k: int, p: nat)
    requires p == Pow2(4) && x == low + p * k && low < p
    ensures low == x % 16
  {
    assert Pow2(2) == 4;
    assert p == 16;
  }

  /** A result's sign bit is the sign of the result. */
  lemma SignBit(v: int, n: nat)
    requires n > 0
    ensures Bits(v, n)[n - 1] <==> Signed(Low(v, n), n) < 0
  {
    LowStep(v, n - 1);
    LowBound(v, n - 1);
    LowBound(v, n);
  }

  /** After a cmp the jumps decide the orderings (opcodes 0x70 to 0x7f). */
  function Taken(op: nat, f: Flags): (t: bool)
    requires 0x70 <= op <= 0x7f
  {
    match op
    case 0x70 => f.of
    case 0x71 => !f.of
    case 0x72 => f.cf
    case 0x73 => !f.cf
    case 0x74 => f.zf
    case 0x75 => !f.zf
    case 0x76 => f.cf || f.zf
    case 0x77 => !f.cf && !f.zf
    case 0x78 => f.sf
    case 0x79 => !f.sf
    case 0x7a => f.pf
    case 0x7b => !f.pf
    case 0x7c => f.sf != f.of
    case 0x7d => f.sf == f.of
    case 0x7e => f.sf != f.of || f.zf
    case _ => f.sf == f.of && !f.zf
  }

  lemma LowDifference(d: nat, s: nat, n: nat)
    requires d < Pow2(n) && s < Pow2(n)
    ensures Low(d - s, n) == if d >= s then d - s else d - s + Pow2(n)
  {
    var k := LowMod(d - s, n);
    LowBound(d - s, n);
    Quotient(d - s, Low(d - s, n), k, Pow2(n));
  }

  lemma Quotient(v: int, low: nat, k: int, p: nat)
    requires v == low + p * k && low < p && 0 - p < v < p
    ensures low == if v >= 0 then v else v + p
  {
  }

  lemma CmpFlags(d: nat, s: nat, n: nat)
    requires n >= 8
    ensures var f := SubFlags(n, d, s, false);
      && (f.zf <==> Low(d - s, n) == 0) && (f.sf <==> Signed(Low(d - s, n), n) < 0)
      && (f.of <==> !Fits(Signed(d, n) - Signed(s, n), n))
  {
  }

  /** The sign of the reduced difference is the true one, unless the difference overflowed. */
  lemma SignRule(d: nat, s: nat, low: nat, n: nat)
    requires n > 0 && d < Pow2(n) && s < Pow2(n) && low == if d >= s then d - s else d - s + Pow2(n)
    ensures (Signed(low, n) < 0) != !Fits(Signed(d, n) - Signed(s, n), n) <==> Signed(d, n) < Signed(s, n)
  {
    var h := Pow2(n - 1);
    assert Pow2(n) == 2 * h;
  }

  lemma SignOfDifference(d: nat, s: nat, n: nat)
    requires n >= 8 && d < Pow2(n) && s < Pow2(n)
    ensures var f := SubFlags(n, d, s, false);
      (f.zf <==> d == s) && (f.sf != f.of <==> Signed(d, n) < Signed(s, n))
  {
    CmpFlags(d, s, n);
    LowDifference(d, s, n);
    SignRule(d, s, Low(d - s, n), n);
  }

  lemma JumpsDecide(d: nat, s: nat, n: nat)
    requires n >= 8 && d < Pow2(n) && s < Pow2(n)
    ensures var f := SubFlags(n, d, s, false);
      && (Taken(0x72, f) <==> d < s) && (Taken(0x73, f) <==> d >= s)
      && (Taken(0x74, f) <==> d == s) && (Taken(0x75, f) <==> d != s)
      && (Taken(0x76, f) <==> d <= s) && (Taken(0x77, f) <==> d > s)
      && (Taken(0x7c, f) <==> Signed(d, n) < Signed(s, n)) && (Taken(0x7d, f) <==> Signed(d, n) >= Signed(s, n))
      && (Taken(0x7e, f) <==> Signed(d, n) <= Signed(s, n)) && (Taken(0x7f, f) <==> Signed(d, n) > Signed(s, n))
  {
    var f := SubFlags(n, d, s, false);
    SignOfDifference(d, s, n);
    CmpCarry(d, s, n);
    UnsignedJumps(f, d, s);
    SignedJumps(f, Signed(d, n), Signed(s, n));
  }

  lemma CmpCarry(d: nat, s: nat, n: nat)
    requires n >= 8 && d < Pow2(n) && s < Pow2(n)
    ensures SubFlags(n, d, s, false).cf <==> d < s
    ensures d == s <==> Signed(d, n) == Signed(s, n)
  {
  }

  lemma UnsignedJumps(f: Flags, d: nat, s: nat)
    requires (f.cf <==> d < s) && (f.zf <==> d == s)
    ensures (Taken(0x72, f) <==> d < s) && (Taken(0x73, f) <==> d >= s)
    ensures (Taken(0x74, f) <==> d == s) && (Taken(0x75, f) <==> d != s)
    ensures (Taken(0x76, f) <==> d <= s) && (Taken(0x77, f) <==> d > s)
  {
  }

  lemma SignedJumps(f: Flags, d: int, s: int)
    requires (f.sf != f.of <==> d < s) && (f.zf <==> d == s)
    ensures (Taken(0x7c, f) <==> d < s) && (Taken(0x7d, f) <==> d >= s)
    ensures (Taken(0x7e, f) <==> d <= s) && (Taken(0x7f, f) <==> d > s)
  {
  }

  /** The jumps on one flag: after cmp they tell whether the signed difference does not fit, whether
      the reduced difference is negative, and whether its low byte has an even number of ones. */
  lemma FlagJumps(d: nat, s: nat, n: nat)
    requires n >= 8 && d < Pow2(n) && s < Pow2(n)
    ensures var f := SubFlags(n, d, s, false);
      && (Taken(0x70, f) <==> !Fits(Signed(d, n) - Signed(s, n), n))
      && (Taken(0x71, f) <==> Fits(Signed(d, n) - Signed(s, n), n))
      && (Taken(0x78, f) <==> Signed(if d >= s then d - s else d - s + Pow2(n), n) < 0)
      && (Taken(0x79, f) <==> Signed(if d >= s then d - s else d - s + Pow2(n), n) >= 0)
      && (Taken(0x7a, f) <==> multiset(Bits(d - s, n)[..8])[true] % 2 == 0)
      && (Taken(0x7b, f) <==> multiset(Bits(d - s, n)[..8])[true] % 2 == 1)
  {
    CmpFlags(d, s, n);
    LowDifference(d, s, n);
    EvenCounts(Bits(d - s, n)[..8]);
  }

  // ------------------------------------------------------------------ the instructions

  lemma Pow32()
    ensures Pow2(32) == 0x1_0000_0000
  {
    assert Pow2(4) == 16;
    Pow2Add(4, 4);
    Pow2Add(8, 8);
    Pow2Add(16, 16);
  }

  /** The carry flag of an addition: bit n of the sum; at 32 bits, where the sum does not fit the
      emulator's registers, it is taken from the sum of the halves. */
  method CarryOut(n: nat, d: nat, s: nat, c: bool) returns (cf: bool)
    requires d < Pow2(n) && s < Pow2(n)
    ensures cf <==> d + s + I(c) >= Pow2(n)
  {
    if n == 32 {
      Pow32();
      cf := CarryOfHalves(d, s, c);
    } else {
      var res := d + s + I(c);
      DivOnce(res, Pow2(n));
      cf := res / Pow2(n) % 2 == 1;
    }
  }

  method CarryOfHalves(d: nat, s: nat, c: bool) returns (cf: bool)
    requires d < 0x1_0000_0000 && s < 0x1_0000_0000
    ensures cf <==> d + s + I(c) >= 0x1_0000_0000
  {
    var lo := I(c) + d % 0x1_0000 + s % 0x1_0000;
    var hi := lo / 0x1_0000 + d / 0x1_0000 + s / 0x1_0000;
    cf := hi / 0x1_0000 % 2 == 1;
  }

  lemma DivOnce(x: nat, p: nat)
    requires p > 0 && x < 2 * p
    ensures x / p == if x >= p then 1 else 0
  {
  }

  /** adc and add (3rdparty/my_x86emu/x86emu.c:6077-6233) at any width. */
  method AddWithCarry(n: nat, d: nat, s: nat, c: bool) returns (r: nat, f: Flags)
    requires n >= 8 && d < Pow2(n) && s < Pow2(n)
    ensures r == Low(d + s + I(c), n) && f == AddFlags(n, d, s, c)
  {
    var cf := CarryOut(n, d, s, c);
    r, f := ReadChain(n, d, s, c, cf);
  }

  /** The other flags, with the carry flag given. */
  method ReadChain(n: nat, d: nat, s: nat, c: bool, cf: bool) returns (r: nat, f: Flags)
    requires n >= 8 && d < Pow2(n) && s < Pow2(n) && cf == (d + s + I(c) >= Pow2(n))
    ensures r == Low(d + s + I(c), n) && f == AddFlags(n, d, s, c)
  {
    var res := Bits(d + s + I(c), n);
    var cc := CarryChain(Bits(d, n), Bits(s, n), res);
    AddChain(n, d, s, c);
    MeaningReads(n, d + s + I(c), Signed(d, n) + Signed(s, n) + I(c), d % 16 + s % 16 + I(c) >= 16);
    r, f := Assemble(n, d + s + I(c), cf, cc, AddFlags(n, d, s, c));
  }

  /** The rest is read off the result v and its carries; f is what the flags mean. */
  method Assemble(n: nat, v: int, cf: bool, cc: seq<bool>, ghost f: Flags) returns (r: nat, g: Flags)
    requires n >= 8 && |cc| == n && cf == f.cf && cc[3] == f.af && (cc[n - 1] != cc[n - 2]) == f.of
    requires Reads(n, v, f)
    ensures r == Low(v, n) && g == f
  {
    var res := Bits(v, n);
    SignBit(v, n);
    r := Val(res);
    g := Flags(cf, Even(res[..8]), cc[3], r == 0, res[n - 1], cc[n - 1] != cc[n - 2]);
  }

  /** The flags that depend on the result alone. */
  predicate Reads(n: nat, v: int, f: Flags)
    requires n >= 8
  {
    f.pf == Even(Bits(v, n)[..8]) && f.zf == (Low(v, n) == 0) && f.sf == (Signed(Low(v, n), n) < 0)
  }

  lemma MeaningReads(n: nat, v: int, sv: int, low: bool)
    requires n >= 8
    ensures Reads(n, v, Meaning(n, v, sv, low)) && Meaning(n, v, sv, low).cf == !(0 <= v < Pow2(n))
  {
  }

  /** What the emulator takes from the carry chain. */
  lemma AddChain(n: nat, d: nat, s: nat, c: bool)
    requires n >= 8 && d < Pow2(n) && s < Pow2(n)
    ensures var cc := CarryChain(Bits(d, n), Bits(s, n), Bits(d + s + I(c), n));
      && (cc[n - 1] != cc[n - 2]) == AddFlags(n, d, s, c).of && cc[3] == AddFlags(n, d, s, c).af
  {
    CarryChainExact(d, s, c, n);
    AddOverflow(d, s, c, n);
    AuxiliaryCarry(d, s, c, n);
  }

  lemma AuxiliaryCarry(d: nat, s: nat, c: bool, n: nat)
    requires n >= 4
    ensures Carries(Bits(d, n), Bits(s, n), c)[3] <==> d % 16 + s % 16 + I(c) >= 16
  {
    CarryMeans(d, s, c, n, 4);
    LowNibble(d);
    LowNibble(s);
    assert Pow2(4) == 16;
  }

  lemma AuxiliaryBorrow(d: nat, s: nat, b: bool, n: nat)
    requires n >= 4
    ensures Carries(Bits(Flip(d), n), Bits(s, n), b)[3] <==> d % 16 < s % 16 + I(b)
  {
    BorrowMeans(d, s, b, n, 4);
    LowNibble(d);
    LowNibble(s);
  }

  /** sbb, sub and cmp (3rdparty/my_x86emu/x86emu.c:6302-6378, 7679-7820). */
  method SubWithBorrow(n: nat, d: nat, s: nat, b: bool) returns (r: nat, f: Flags)
    requires n >= 8 && d < Pow2(n) && s < Pow2(n)
    ensures r == Low(d - s - I(b), n) && f == SubFlags(n, d, s, b)
  {
    var res := Bits(d - s - I(b), n);
    var bc := BorrowChain(Bits(d, n), Bits(s, n), res);
    SubChain(n, d, s, b);
    MeaningReads(n, d - s - I(b), Signed(d, n) - Signed(s, n) - I(b), d % 16 < s % 16 + I(b));
    r, f := Assemble(n, d - s - I(b), bc[n - 1], bc, SubFlags(n, d, s, b));
  }

  lemma SubChain(n: nat, d: nat, s: nat, b: bool)
    requires n >= 8 && d < Pow2(n) && s < Pow2(n)
    ensures var bc := BorrowChain(Bits(d, n), Bits(s, n), Bits(d - s - I(b), n));
      && bc[n - 1] == SubFlags(n, d, s, b).cf
      && (bc[n - 1] != bc[n - 2]) == SubFlags(n, d, s, b).of && bc[3] == SubFlags(n, d, s, b).af
  {
    BorrowChainExact(d, s, b, n);
    SubOverflow(d, s, b, n);
    AuxiliaryBorrow(d, s, b, n);
  }

  class Emulator {
    var flags: Flags

    constructor ()
      ensures flags == Flags(false, false, false, false, false, false)
    {
      flags := Flags(false, false, false, false, false, false);
    }

    method Add(n: nat, d: nat, s: nat) returns (r: nat)
      requires n >= 8 && d < Pow2(n) && s < Pow2(n)
      modifies this
      ensures r == Low(d + s, n) && flags == AddFlags(n, d, s, false)
    {
      r, flags := AddWithCarry(n, d, s, false);
    }

    method Adc(n: nat, d: nat, s: nat) returns (r: nat)
      requires n >= 8 && d < Pow2(n) && s < Pow2(n)
      modifies this
      ensures r == Low(d + s + I(old(flags).cf), n) && flags == AddFlags(n, d, s, old(flags).cf)
    {
      r, flags := AddWithCarry(n, d, s, flags.cf);
    }

    method Sub(n: nat, d: nat, s: nat) returns (r: nat)
      requires n >= 8 && d < Pow2(n) && s < Pow2(n)
      modifies this
      ensures r == Low(d - s, n) && flags == SubFlags(n, d, s, false)
    {
      r, flags := SubWithBorrow(n, d, s, false);
    }

    method Sbb(n: nat, d: nat, s: nat) returns (r: nat)
      requires n >= 8 && d < Pow2(n) && s < Pow2(n)
      modifies this
      ensures r == Low(d - s - I(old(flags).cf), n) && flags == SubFlags(n, d, s, old(flags).cf)
    {
      r, flags := SubWithBorrow(n, d, s, flags.cf);
    }

    /** cmp: the flags of sub, and the first operand back. */
    method Cmp(n: nat, d: nat, s: nat) returns (r: nat)
      requires n >= 8 && d < Pow2(n) && s < Pow2(n)
      modifies this
      ensures r == d && flags == SubFlags(n, d, s, false)
    {
      var res;
      res, flags := SubWithBorrow(n, d, s, false);
      r := d;
    }

    /** The condition of a jump on the current flags. */
    method Jump(op: nat) returns (taken: bool)
      requires 0x70 <= op <= 0x7f
      ensures taken == Taken(op, flags)
    {
      taken := Taken(op, flags);
    }
  }

  /** Adding in two parts: the adc of the upper halves after the add of the lower ones gives the
      upper half, the carry and the overflow of the double-width sum. d and s are the operands, of
      width m = 2n, p is 2^n. */
  lemma AddInParts(dl: nat, dh: nat, sl: nat, sh: nat, n: nat, m: nat, p: nat, d: nat, s: nat)
    requires n >= 8 && m == 2 * n && p == Pow2(n) && dl < p && dh < p && sl < p && sh < p
    requires d == dl + p * dh && s == sl + p * sh
    ensures var c := AddFlags(n, dl, sl, false).cf;
      && d + s == (dl + sl - p * I(c)) + p * (dh + sh + I(c)) && 0 <= dl + sl - p * I(c) < p
      && (AddFlags(n, dh, sh, c).cf <==> d + s >= Pow2(m))
      && (AddFlags(n, dh, sh, c).of <==> !Fits(Signed(d, m) + Signed(s, m), m))
  {
    var c := AddMeans(n, dl, sl, false).0;
    var top := AddMeans(n, dh, sh, c);
    PartSum(dl, dh, sl, sh, I(c), p);
    Twice(n, m, p);
    PartOverflow(dl, dh, sl, sh, I(c), n, m, p, d, s);
  }

  /** The carry and the overflow flag by what they mean. */
  function AddMeans(n: nat, d: nat, s: nat, c: bool): (r: (bool, bool))
    requires n >= 8
    ensures r.0 == AddFlags(n, d, s, c).cf && r.1 == AddFlags(n, d, s, c).of
  {
    (d + s + I(c) >= Pow2(n), !Fits(Signed(d, n) + Signed(s, n) + I(c), n))
  }

  lemma Twice(n: nat, m: nat, p: nat)
    requires n >= 1 && m == 2 * n && p == Pow2(n)
    ensures Pow2(m) == p * p && Pow2(m - 1) == p * Pow2(n - 1)
  {
    Pow2Add(n, n);
    Pow2Add(n, n - 1);
  }

  /** The double-width sum leaves its range exactly when the sum of the upper halves does. */
  lemma PartOverflow(dl: nat, dh: nat, sl: nat, sh: nat, c: nat, n: nat, m: nat, p: nat, d: nat, s: nat)
    requires n >= 1 && m == 2 * n && p == Pow2(n) && dl < p && sl < p && dh < p && sh < p
    requires c == (if dl + sl >= p then 1 else 0) && d == dl + p * dh && s == sl + p * sh
    ensures Fits(Signed(dh, n) + Signed(sh, n) + c, n) <==> Fits(Signed(d, m) + Signed(s, m), m)
  {
    var h, x, y := Pow2(n - 1), Signed(dh, n), Signed(sh, n);
    Twice(n, m, p);
    SignedParts(dl, dh, n, m, p, d, x);
    SignedParts(sl, sh, n, m, p, s, y);
    SumInRange(dl, x, sl, y, c, p, h, p * h, Signed(d, m) + Signed(s, m));
  }

  /** The signed reading of a double-width number. */
  lemma SignedParts(lo: nat, hi: nat, n: nat, m: nat, p: nat, d: nat, x: int)
    requires n >= 1 && m == 2 * n && p == Pow2(n) && lo < p && hi < p && d == lo + p * hi && x == Signed(hi, n)
    ensures Signed(d, m) == lo + p * x
  {
    Twice(n, m, p);
    SignedNumber(lo, hi, p, Pow2(n - 1), Pow2(m), Pow2(m - 1), d, x);
  }

  lemma SignedNumber(lo: nat, hi: nat, p: nat, h: nat, pp: nat, ph: nat, d: nat, x: int)
    requires lo < p && pp == p * p && ph == p * h && d == lo + p * hi && x == if hi < h then hi else hi - p
    ensures (if d < ph then d else d - pp) == lo + p * x
  {
    if hi < h {
      Scale(p, hi + 1, h);
      Minus(p, hi + 1, 1);
    } else {
      Scale(p, h, hi);
      Minus(p, hi, p);
    }
  }

  lemma SumInRange(dl: nat, dh: int, sl: nat, sh: int, c: nat, p: nat, h: nat, ph: nat, sum: int)
    requires dl < p && sl < p && c == (if dl + sl >= p then 1 else 0)
    requires ph == p * h && sum == (dl + p * dh) + (sl + p * sh)
    ensures 0 - h <= dh + sh + c < h <==> 0 - ph <= sum < ph
  {
    SumOfParts(p, dh, sh, c);
    InRange(dl + sl - p * c, p, dh + sh + c, h);
  }

  lemma InRange(lo: int, p: nat, t: int, h: nat)
    requires 0 <= lo < p
    ensures 0 - h <= t < h <==> 0 - p * h <= lo + p * t < p * h
  {
    Minus(p, 0, h);
    Minus(p, t + 1, 1);
    if t >= h { Scale(p, h, t); } else { Scale(p, t + 1, h); }
    if t >= 0 - h { Scale(p, 0 - h, t); } else { Scale(p, t + 1, 0 - h); }
  }

  lemma SumOfParts(p: nat, a: int, b: int, c: int)
    ensures p * (a + b + c) == p * a + p * b + p * c
    ensures c == 0 ==> p * c == 0
    ensures c == 1 ==> p * c == p
  {
  }

  lemma Scale(p: nat, a: int, b: int)
    requires a <= b
    ensures p * a <= p * b
  {
    Minus(p, b, a);
    NotNegative(p, b - a);
  }

  lemma NotNegative(p: nat, k: nat)
    ensures p * k >= 0
  {
  }

  lemma Minus(p: nat, x: int, y: int)
    ensures p * (x - y) == p * x - p * y
    ensures p * 1 == p && p * 0 == 0
  {
  }

  lemma PartSum(dl: nat, dh: nat, sl: nat, sh: nat, c: nat, p: nat)
    requires dl < p && dh < p && sl < p && sh < p && c == (if dl + sl >= p then 1 else 0)
    ensures (dl + p * dh) + (sl + p * sh) == (dl + sl - p * c) + p * (dh + sh + c)
    ensures dh + sh + c >= p <==> (dl + p * dh) + (sl + p * sh) >= p * p
  {
    ProductOfSum(p, dh, sh, c);
    if dh + sh + c >= p { Product(p, p, dh + sh + c); } else { Product(p, dh + sh + c + 1, p); }
  }

  lemma ProductOfSum(p: nat, a: nat, b: nat, c: nat)
    ensures p * (a + b + c) == p * a + p * b + p * c
    ensures p * (a + b + c + 1) == p * (a + b + c) + p
    ensures p * 0 == 0 && p * 1 == p
  {
  }

  lemma Product(p: nat, a: nat, b: nat)
    requires a <= b
    ensures p * a <= p * b
  {
  }
}
