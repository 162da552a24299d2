/** 64-bit division without a divide instruction (src/math.cpp:5-88). */
module Division {

  const TWO63: nat := 0x8000_0000_0000_0000
  const TWO64: nat := 0x1_0000_0000_0000_0000

  datatype Result<T> = Ok(value: T) | DivideError

  // ------------------------------------------------------------------ unsigned

  predicate PowerOfTwo(q: nat) {
    q == 1 || (q > 1 && q % 2 == 0 && PowerOfTwo(q / 2))
  }

  /** quot and rem are what division of num by den gives. */
  predicate Divides(num: nat, den: nat, quot: nat, rem: nat) {
    quot * den + rem == num && rem < den
  }

  lemma DivideUnique(num: nat, den: nat, quot: nat, rem: nat)
    requires den > 0 && Divides(num, den, quot, rem)
    ensures quot == num / den && rem == num % den
  {
    var q, r := num / den, num % den;
    assert q * den + r == num;
    if quot < q { Gap(quot, q, den); }
    if q < quot { Gap(q, quot, den); }
  }

  lemma {:induction false} Gap(a: nat, b: nat, den: nat)
    requires a < b
    ensures a * den + den <= b * den
    decreases b
  {
    Distribute(b - 1, 1, den);
    if a + 1 < b { Gap(a, b - 1, den); }
  }

  lemma HalveProduct(den: nat, qbit: nat)
    requires qbit % 2 == 0
    ensures den * qbit == 2 * (den * (qbit / 2))
  {
    var h := qbit / 2;
    assert qbit == 2 * h;
  }

  /** Left-justify the denominator, counting the shift in a bit. */
  method Justify(den0: nat) returns (den: nat, qbit: nat)
    requires 0 < den0 < TWO64
    ensures TWO63 <= den < TWO64 && den == den0 * qbit && PowerOfTwo(qbit)
  {
    den, qbit := den0, 1;
    while den < TWO63
      invariant 0 < den < TWO64 && den == den0 * qbit && PowerOfTwo(qbit)
      decreases TWO64 - den
    {
      HalveProduct(den0, 2 * qbit);
      den, qbit := 2 * den, 2 * qbit;
    }
  }

  /** What the second loop keeps: num is what is left of num0 after quot times den0, and less than
      twice the shifted denominator. */
  ghost predicate Dividing(num0: nat, den0: nat, num: nat, quot: nat, den: nat, qbit: nat) {
    && quot * den0 + num == num0
    && (if qbit == 0 then num < den0 else PowerOfTwo(qbit) && den == den0 * qbit && num < 2 * den)
  }

  lemma SubtractKeeps(num0: nat, den0: nat, num: nat, quot: nat, den: nat, qbit: nat)
    requires den == den0 * qbit && quot * den0 + num == num0 && den <= num
    ensures (quot + qbit) * den0 + (num - den) == num0
  {
    Distribute(quot, qbit, den0);
  }

  lemma ShiftKeeps(num0: nat, den0: nat, num: nat, quot: nat, den: nat, qbit: nat)
    requires quot * den0 + num == num0 && PowerOfTwo(qbit) && den == den0 * qbit && num < den
    ensures Dividing(num0, den0, num, quot, den / 2, qbit / 2)
  {
    if qbit > 1 { HalveProduct(den0, qbit); }
  }

  /** my__udivmoddi4 (src/math.cpp:5-33); division by zero traps. */
  method UDivMod(num0: nat, den0: nat) returns (r: Result<(nat, nat)>)
    requires num0 < TWO64 && den0 < TWO64
    ensures den0 == 0 <==> r.DivideError?
    ensures r.Ok? ==> Divides(num0, den0, r.value.0, r.value.1)
  {
    if den0 == 0 { return DivideError; }
    var den: nat, qbit: nat := Justify(den0);
    var num: nat, quot: nat := num0, 0;
    while qbit != 0
      invariant Dividing(num0, den0, num, quot, den, qbit)
    {
      if den <= num {
        SubtractKeeps(num0, den0, num, quot, den, qbit);
        num, quot := num - den, quot + qbit;
      }
      ShiftKeeps(num0, den0, num, quot, den, qbit);
      den, qbit := den / 2, qbit / 2;
    }
    r := Ok((quot, num));
  }

  lemma Distribute(a: nat, b: nat, c: nat)
    ensures (a + b) * c == a * c + c * b
  {
  }

  method UDiv(num: nat, den: nat) returns (r: Result<nat>)
    requires num < TWO64 && den < TWO64
    ensures r == if den == 0 then DivideError else Ok(num / den)
  {
    var both := UDivMod(num, den);
    if both.DivideError? { return DivideError; }
    DivideUnique(num, den, both.value.0, both.value.1);
    r := Ok(both.value.0);
  }

  method UMod(num: nat, den: nat) returns (r: Result<nat>)
    requires num < TWO64 && den < TWO64
    ensures r == if den == 0 then DivideError else Ok(num % den)
  {
    var both := UDivMod(num, den);
    if both.DivideError? { return DivideError; }
    DivideUnique(num, den, both.value.0, both.value.1);
    r := Ok(both.value.1);
  }

  // ------------------------------------------------------------------ signed

  predicate Int64(x: int) {
    0 - TWO63 <= x < TWO63
  }

  /** Reading an unsigned number as signed and back, and negation, all in 64 bits. */
  function ToSigned(x: nat): (r: int)
    requires x < TWO64
    ensures Int64(r)
  {
    if x < TWO63 then x else x - TWO64
  }

  function ToUnsigned(x: int): (r: nat)
    requires Int64(x)
    ensures r < TWO64
  {
    if x >= 0 then x else x + TWO64
  }

  function Negate(x: int): (r: int)
    requires Int64(x)
    ensures Int64(r)
  {
    if x == 0 - TWO63 then x else 0 - x
  }

  function Abs(x: int): (r: nat) {
    if x < 0 then 0 - x else x
  }

  /** q is the quotient truncated towards zero: what is left is smaller than the divisor and has
      the sign of the dividend. */
  predicate Truncated(num: int, den: int, q: int) {
    var rem := num - q * den;
    Abs(rem) < Abs(den) && (rem != 0 ==> (rem < 0 <==> num < 0))
  }

  /** The magnitude of a 64-bit number, as the code computes it: negate if negative. */
  method Magnitude(x: int) returns (m: nat)
    requires Int64(x)
    ensures m == Abs(x) && m < TWO64
  {
    var y := x;
    if y < 0 { y := Negate(y); }
    m := ToUnsigned(y);
  }

  lemma SignedQuotient(num: int, den: int, quot: nat, rem: nat)
    requires den != 0 && Divides(Abs(num), Abs(den), quot, rem)
    ensures Truncated(num, den, if (num < 0) != (den < 0) then 0 - quot else quot)
    ensures num - (if (num < 0) != (den < 0) then 0 - quot else quot) * den == if num < 0 then 0 - rem else rem
  {
    Signs(quot, den);
  }

  lemma Signs(quot: nat, den: int)
    ensures (0 - quot) * den == 0 - quot * den
    ensures quot * Abs(den) == if den < 0 then 0 - quot * den else quot * den
  {
  }

  /** my__divdi3 (src/math.cpp:48-67) is truncated division, except for the one quotient that no
      64-bit number holds. */
  method Div(num: int, den: int) returns (r: Result<int>)
    requires Int64(num) && Int64(den)
    ensures den == 0 <==> r.DivideError?
    ensures r.Ok? ==> (Truncated(num, den, r.value) <==> !(num == 0 - TWO63 && den == -1))
    ensures num == 0 - TWO63 && den == -1 ==> r == Ok(0 - TWO63)
  {
    var n := Magnitude(num);
    var d := Magnitude(den);
    var both := UDivMod(n, d);
    if both.DivideError? { return DivideError; }
    var (quot, rem) := both.value;
    SignedQuotient(num, den, quot, rem);
    QuotientSize(n, d, quot, rem);
    var minus := (num < 0) != (den < 0);
    var v := ToSigned(quot);
    if minus { v := Negate(v); }
    r := Ok(v);
  }

  lemma QuotientSize(n: nat, d: nat, quot: nat, rem: nat)
    requires d > 0 && Divides(n, d, quot, rem)
    ensures quot <= n && (quot == n > 0 ==> d == 1)
  {
    assert quot * d >= quot;
    if d > 1 { assert quot * d >= quot * 2; }
  }

  /** my__moddi3 (src/math.cpp:69-88) gives its result the sign of num * den, so it is the remainder
      of truncated division exactly when the divisor is positive or divides evenly. */
  method Mod(num: int, den: int) returns (r: Result<int>)
    requires Int64(num) && Int64(den)
    ensures den == 0 <==> r.DivideError?
    ensures r.Ok? ==> r.value == SignedRem(num, den)
    ensures r.Ok? ==> (IsRemainder(num, den, r.value) <==> den > 0 || num % den == 0)
  {
    var n := Magnitude(num);
    var d := Magnitude(den);
    var both := UDivMod(n, d);
    if both.DivideError? { return DivideError; }
    var (quot, rem) := both.value;
    RemainderSign(num, den, quot, rem);
    DivideUnique(n, d, quot, rem);
    var minus := (num < 0) != (den < 0);
    var v := ToSigned(rem);
    if minus { v := Negate(v); }
    r := Ok(v);
  }

  /** What my__moddi3 comes to. */
  function SignedRem(num: int, den: int): (m: int)
    requires den != 0
  {
    var rem := Abs(num) % Abs(den);
    if (num < 0) != (den < 0) then 0 - rem else rem
  }

  /** m is the remainder of truncated division: num - m is a multiple of den, and m is smaller
      than den and has the sign of num. */
  ghost predicate IsRemainder(num: int, den: int, m: int) {
    Abs(m) < Abs(den) && (m != 0 ==> (m < 0 <==> num < 0)) && exists q: int :: num == Times(q, den) + m
  }

  function Times(q: int, den: int): (r: int) {
    q * den
  }

  lemma RemainderSign(num: int, den: int, quot: nat, rem: nat)
    requires den != 0 && Divides(Abs(num), Abs(den), quot, rem)
    ensures var m := if (num < 0) != (den < 0) then 0 - rem else rem;
      IsRemainder(num, den, m) <==> den > 0 || num % den == 0
  {
    SignedQuotient(num, den, quot, rem);
    var q := if (num < 0) != (den < 0) then 0 - quot else quot;
    var t := if num < 0 then 0 - rem else rem;
    assert num == Times(q, den) + t;
    ZeroRemainder(num, den, q, t);
  }

  lemma ZeroRemainder(num: int, den: int, q: int, t: int)
    requires den != 0 && num == Times(q, den) + t && Abs(t) < Abs(den)
    ensures num % den == 0 <==> t == 0
  {
    var p, m := num / den, num % den;
    assert num == p * den + m;
    assert (q - p) * den == m - t by { assert (q - p) * den == q * den - p * den; }
    if t == 0 || m == 0 { SmallMultiple(q - p, den); }
  }

  lemma SmallMultiple(k: int, den: int)
    requires Abs(k * den) < Abs(den)
    ensures k * den == 0
  {
    if k >= 1 { Gap(0, k, Abs(den)); }
    if k <= -1 { Gap(0, -k, Abs(den)); }
  }

  /** The quotient that does not fit: what Div returns for it is not the truncated one. */
  lemma MinimumQuotient()
    ensures !Truncated(0 - TWO63, -1, 0 - TWO63)
  {
  }

  /** 7 modulo -2 is 1, but the code gives it the sign of the divisor. */
  lemma NegativeDivisor()
    ensures SignedRem(7, -2) == -1 && !IsRemainder(7, -2, -1) && IsRemainder(7, -2, 1)
  {
    assert 7 == Times(-3, -2) + 1;
  }
}
