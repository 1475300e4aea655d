/**
 How many decimal digits a number has: fmt's bit trick with its power table, the
 fallback loop, and the plain definition.
 */
module FmtDigits {

  function Pow2(e: nat): (r: nat) { if e == 0 then 1 else 2 * Pow2(e - 1) }

  function Pow10(e: nat): (r: nat) { if e == 0 then 1 else 10 * Pow10(e - 1) }

  /** How many decimal digits `n` has. */
  function NumDigits(n: nat): (r: nat) { if n < 10 then 1 else 1 + NumDigits(n / 10) }

  /** Bits without leading zeros: the word size minus `__builtin_clz`. */
  function BitLength(n: nat): (r: nat) { if n == 0 then 0 else 1 + BitLength(n / 2) }

  /** n | 1 */
  function OrOne(n: nat): (r: nat) { if n % 2 == 0 then n + 1 else n }

  const Powers64: seq<nat> := [
    0, 10, 100, 1000, 10000, 100000, 1000000, 10000000, 100000000, 1000000000,
    10000000000, 100000000000, 1000000000000, 10000000000000, 100000000000000,
    1000000000000000, 10000000000000000, 100000000000000000, 1000000000000000000,
    10000000000000000000]

  const Powers32: seq<nat> := [
    0, 10, 100, 1000, 10000, 100000, 1000000, 10000000, 100000000, 1000000000]

  /** bits * 1233 >> 12, an estimate of the decimal logarithm. */
  function Estimate(bits: nat): (r: nat) { bits * 1233 / 4096 }

  function TableIndex(n: nat): (r: nat) { Estimate(BitLength(OrOne(n))) }

  /** count_digits by table. The subtraction comes last only to stay in `nat`. */
  function CountDigits(n: nat, powers: seq<nat>): (r: nat)
    requires TableIndex(n) < |powers|
  {
    var t := TableIndex(n);
    t + 1 - (if n < powers[t] then 1 else 0)
  }

  lemma {:induction false} Pow2Monotone(a: nat, b: nat)
    requires a <= b
    ensures Pow2(a) <= Pow2(b)
  {
    if a < b { Pow2Monotone(a, b - 1); }
  }

  lemma {:induction false} BitLengthBrackets(n: nat)
    requires n > 0
    ensures BitLength(n) > 0 && Pow2(BitLength(n) - 1) <= n < Pow2(BitLength(n))
  {
    if n > 1 { BitLengthBrackets(n / 2); }
  }

  lemma {:induction false} BitLengthBound(n: nat, k: nat)
    requires n < Pow2(k)
    ensures BitLength(n) <= k
  {
    if n > 0 { BitLengthBound(n / 2, k - 1); }
  }

  /** The digit count is the one whose powers of ten enclose the number. */
  lemma {:induction false} NumDigitsUnique(n: nat, d: nat)
    requires d >= 1 && n < Pow10(d) && (d > 1 ==> Pow10(d - 1) <= n)
    ensures NumDigits(n) == d
  {
    if d > 1 {
      NumDigitsUnique(n / 10, d - 1);
    }
  }

  /** The largest bit length whose estimate is `t`. */
  function Last(t: nat): (r: nat) { (4096 * (t + 1) - 1) / 1233 }

  lemma TwoPowers()
    ensures Pow2(3) == 8 && Pow2(6) == 64 && Pow2(9) == 512 && Pow2(13) == 8192
    ensures Pow2(16) == 65536 && Pow2(19) == 524288 && Pow2(23) == 8388608
    ensures Pow2(26) == 67108864 && Pow2(29) == 536870912 && Pow2(33) == 8589934592
    ensures Pow2(36) == 68719476736 && Pow2(39) == 549755813888 && Pow2(43) == 8796093022208
    ensures Pow2(46) == 70368744177664 && Pow2(49) == 562949953421312
    ensures Pow2(53) == 9007199254740992 && Pow2(56) == 72057594037927936
    ensures Pow2(59) == 576460752303423488 && Pow2(63) == 9223372036854775808
    ensures Pow2(32) == 4294967296 && Pow2(64) == 18446744073709551616
  {
  }

  lemma TenPowers()
    ensures Pow10(0) == 1 && Pow10(1) == 10 && Pow10(2) == 100 && Pow10(3) == 1000
    ensures Pow10(4) == 10000 && Pow10(5) == 100000 && Pow10(6) == 1000000
    ensures Pow10(7) == 10000000 && Pow10(8) == 100000000 && Pow10(9) == 1000000000
    ensures Pow10(10) == 10000000000 && Pow10(11) == 100000000000 && Pow10(12) == 1000000000000
    ensures Pow10(13) == 10000000000000 && Pow10(14) == 100000000000000
    ensures Pow10(15) == 1000000000000000 && Pow10(16) == 10000000000000000
    ensures Pow10(17) == 100000000000000000 && Pow10(18) == 1000000000000000000
    ensures Pow10(19) == 10000000000000000000 && Pow10(20) == 100000000000000000000
  {
  }

  /** The power table holds the powers of ten, except its first entry. */
  lemma TablePowers(t: nat)
    requires 1 <= t <= 19
    ensures Powers64[t] == Pow10(t)
    ensures t <= 9 ==> Powers32[t] == Pow10(t)
  {
    hide Pow10;
    TenPowers();
  }

  /** Between two estimates lies one power of ten. */
  lemma Boundary(t: nat)
    requires t <= 18
    ensures Pow10(t) <= Pow2(Last(t)) <= Pow10(t + 1)
  {
    hide Pow2, Pow10;
    TwoPowers();
    TenPowers();
  }

  lemma EstimateBrackets(k: nat)
    requires 1 <= k <= 64
    ensures var t := Estimate(k);
            t <= 19 && Pow2(k) <= Pow10(t + 1) && (t >= 1 ==> Pow10(t - 1) <= Pow2(k - 1))
  {
    hide Pow2, Pow10;
    var t := Estimate(k);
    if t <= 18 {
      Boundary(t);
      Pow2Monotone(k, Last(t));
    } else {
      TwoPowers();
      TenPowers();
    }
    if t >= 1 {
      Boundary(t - 1);
      Pow2Monotone(Last(t - 1), k - 1);
    }
  }

  lemma Pow2Half(k: nat)
    requires k >= 1
    ensures Pow2(k) == 2 * Pow2(k - 1)
  {
  }

  lemma EstimateOne(k: nat)
    ensures Estimate(k) >= 1 ==> k >= 4
  {
  }

  lemma IndexInRange(n: nat, k: nat)
    requires n < Pow2(k) && 1 <= k <= 64
    ensures 1 <= BitLength(OrOne(n)) <= k && TableIndex(n) <= Estimate(k)
  {
    hide BitLength, Pow2;
    Pow2Half(k);
    BitLengthBound(OrOne(n), k);
    BitLengthBrackets(OrOne(n));
  }

  /** n | 1 has the bits of n, so its length brackets n as well. */
  lemma IndexBrackets(n: nat)
    requires n < Pow2(64)
    ensures var t := TableIndex(n);
            t <= 19 && n < Pow10(t + 1) && (t >= 1 ==> Pow10(t - 1) <= n)
  {
    hide BitLength, Pow2, Pow10, Estimate;
    IndexInRange(n, 64);
    var m := OrOne(n);
    var k := BitLength(m);
    BitLengthBrackets(m);
    EstimateBrackets(k);
    if Estimate(k) >= 1 {
      EstimateOne(k);
      Pow2Half(k - 1);
    }
  }

  /** The 64-bit counter is exact on every 64-bit number, and reads inside its table. */
  lemma CountDigits64Exact(n: nat)
    requires n < Pow2(64)
    ensures TableIndex(n) < |Powers64|
    ensures CountDigits(n, Powers64) == NumDigits(n)
  {
    IndexBrackets(n);
    var t := TableIndex(n);
    if t > 0 {
      TablePowers(t);
      NumDigitsUnique(n, if n < Pow10(t) then t else t + 1);
    }
  }

  /** The same for the 32-bit counter and its shorter table. */
  lemma CountDigits32Exact(n: nat)
    requires n < Pow2(32)
    ensures TableIndex(n) < |Powers32|
    ensures CountDigits(n, Powers32) == NumDigits(n)
  {
    Pow2Monotone(32, 64);
    IndexInRange(n, 32);
    CountDigits64Exact(n);
    var t := TableIndex(n);
    if t > 0 { TablePowers(t); }
  }

  /** The fallback without clz: four digits a round. */
  method CountDigitsFallback(number: nat) returns (count: nat)
    ensures count == NumDigits(number)
  {
    var n := number;
    count := 1;
    while true
      invariant NumDigits(number) == count - 1 + NumDigits(n)
      decreases n
    {
      if n < 10 { return; }
      if n < 100 { NumDigitsUnique(n, 2); return count + 1; }
      if n < 1000 { NumDigitsUnique(n, 3); return count + 2; }
      if n < 10000 { NumDigitsUnique(n, 4); return count + 3; }
      FourDigits(n);
      n := n / 10000;
      count := count + 4;
    }
  }

  lemma FourDigits(n: nat)
    requires n >= 10000
    ensures NumDigits(n) == 4 + NumDigits(n / 10000)
  {
    assert n / 10 / 10 == n / 100 && n / 100 / 10 == n / 1000 && n / 1000 / 10 == n / 10000;
    assert NumDigits(n / 100) == 2 + NumDigits(n / 10000);
  }
}
