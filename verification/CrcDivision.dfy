/**
 What the checksum is: the CRC-32 of ISO 3309, a remainder of polynomial division over GF(2). A polynomial is
 the set of exponents with coefficient one, and a byte string is a polynomial whose first bit, the lowest of its
 first byte, has the highest degree.

 Main result: ChecksumIsRemainder.
 */
module CrcDivision {
  import opened Bytes
  import opened Crc32

  type Polynomial = set<nat>

  const GENERATOR: Polynomial := {32, 26, 23, 22, 16, 12, 11, 10, 8, 7, 5, 4, 2, 1, 0}

  /** All terms of degree below n. */
  function Ones(n: nat): (p: Polynomial)
    ensures forall k: nat :: k in p <==> k < n
  {
    if n == 0 then {} else Ones(n - 1) + {n - 1}
  }

  function Sum(p: Polynomial, q: Polynomial): Polynomial {
    (p - q) + (q - p)
  }

  /** p times x to the power n. */
  function Shift(p: Polynomial, n: nat): Polynomial {
    set e | e in p :: Up(e, n)
  }

  function Up(e: nat, n: nat): nat {
    e + n
  }

  lemma InShift(p: Polynomial, n: nat, e: nat)
    ensures e in Shift(p, n) <==> e >= n && e - n in p
  {
    if e >= n && e - n in p {
      assert Up(e - n, n) == e;
    }
  }

  function Bit(x: bool, p: Polynomial): Polynomial {
    if x then p else {}
  }

  /** The polynomial of a bit string, times g: the first bit has the highest degree. */
  function Times(q: seq<bool>, g: Polynomial): Polynomial {
    if q == [] then {} else Sum(Shift(Times(q[..|q| - 1], g), 1), Bit(q[|q| - 1], g))
  }

  function Message(bits: seq<bool>): Polynomial {
    Times(bits, {0})
  }

  /** Division by a generator of degree thirty-two. */
  ghost predicate LeavesRemainder(dividend: Polynomial, g: Polynomial, r: Polynomial) {
    r <= Ones(32) && exists q :: dividend == Sum(Times(q, g), r)
  }

  /** The message with thirty-two zeros after it, and its first thirty-two bits inverted. */
  function Dividend(bytes: Bytes): Polynomial {
    Sum(Shift(Message(BitString(bytes)), 32), Shift(Ones(32), 8 * |bytes|))
  }

  /** A register: its lowest bit is the coefficient of degree thirty-one. */
  function Coefficients(w: bv32): Polynomial {
    set k | k in Ones(32) && Coefficient(w, k)
  }

  predicate Coefficient(w: bv32, k: nat)
    requires k < 32
  {
    BitsOf(w, 32)[31 - k]
  }

  // ---------- The register as a polynomial ----------

  lemma {:induction false} BitsXor(a: bv32, b: bv32, n: nat, i: nat)
    requires i < n
    ensures BitsOf(Xor(a, b), n)[i] == (BitsOf(a, n)[i] != BitsOf(b, n)[i])
    decreases n
  {
    hide Xor, Half, Odd;
    OddXor(a, b);
    if i > 0 {
      BitsXor(Half(a), Half(b), n - 1, i - 1);
    }
  }

  lemma OddXor(a: bv32, b: bv32)
    ensures Odd(Xor(a, b)) == (Odd(a) != Odd(b)) && Half(Xor(a, b)) == Xor(Half(a), Half(b))
  {
  }

  lemma {:induction false} BitsStay(w: bv32, n: nat, i: nat)
    requires i < n
    ensures BitsOf(w, n + 1)[i] == BitsOf(w, n)[i]
    decreases n
  {
    hide Half, Odd;
    if i > 0 {
      BitsStay(Half(w), n - 1, i - 1);
    }
  }

  lemma {:induction false} NoBitsBeyond(w: bv32, n: nat, m: nat, i: nat)
    requires Gone(w, n) && n <= i < m
    ensures !BitsOf(w, m)[i]
    decreases m
  {
    if i > 0 {
      GoneStays(w, n, i - n);
      NoBitsBeyond(Half(w), i - 1, m - 1, i - 1);
    }
  }

  lemma WordIsGone(w: bv32)
    ensures Gone(w, 32)
  {
    hide Half, Gone, Eighth;
    var a, b, c := Eighth(w), Eighth(Eighth(w)), Eighth(Eighth(Eighth(w)));
    EighthIsShift(w);
    EighthIsShift(a);
    EighthIsShift(b);
    EighthIsShift(c);
    AllShiftedOut(w);
    NothingIsGone();
    GoneEighth(c, 0);
    GoneEighth(b, 8);
    GoneEighth(a, 16);
    GoneEighth(w, 24);
  }

  lemma AllShiftedOut(w: bv32)
    ensures (((w >> 8) >> 8) >> 8) >> 8 == 0
  {
  }

  lemma NothingIsGone()
    ensures Gone(0, 0)
  {
  }

  lemma CoefficientsXor(a: bv32, b: bv32)
    ensures Coefficients(Xor(a, b)) == Sum(Coefficients(a), Coefficients(b))
  {
    hide Xor, BitsOf;
    forall k | k in Ones(32)
      ensures Coefficient(Xor(a, b), k) == (Coefficient(a, k) != Coefficient(b, k))
    {
      BitsXor(a, b, 32, 31 - k);
    }
  }

  lemma CoefficientsHalf(w: bv32)
    ensures Coefficients(Half(w)) == Shift(Coefficients(w) - {31}, 1)
    ensures 31 in Coefficients(w) <==> Odd(w)
  {
    hide Half, Odd, BitsOf, Gone;
    var half, other := Coefficients(Half(w)), Shift(Coefficients(w) - {31}, 1);
    forall k: nat ensures k in half <==> k in other {
      InShift(Coefficients(w) - {31}, 1, k);
      if k < 32 {
        BitsOfHalf(w, 31 - k);
      }
    }
    FirstBit(w);
  }

  lemma BitsOfHalf(w: bv32, i: nat)
    requires i < 32
    ensures BitsOf(Half(w), 32)[i] == (i < 31 && BitsOf(w, 32)[i + 1])
  {
    hide Half, Odd;
    if i < 31 {
      BitsStay(Half(w), 31, i);
    } else {
      WordIsGone(w);
      NoBitsBeyond(Half(w), 31, 32, 31);
    }
  }

  lemma FirstBit(w: bv32)
    ensures BitsOf(w, 32)[0] == Odd(w)
  {
    hide Half, Odd;
  }

  lemma NextBit(w: bv32, n: nat)
    ensures BitsOf(w, n + 1) == [Odd(w)] + BitsOf(Half(w), n)
  {
  }

  lemma FourBits(w: bv32, n: nat)
    ensures BitsOf(w, n + 4) == [Odd(w), Odd(Half(w)), Odd(Half(Half(w))), Odd(Half(Half(Half(w))))]
                                + BitsOf(Half(Half(Half(Half(w)))), n)
  {
    hide Half, Odd, BitsOf;
    NextBit(w, n + 3);
    NextBit(Half(w), n + 2);
    NextBit(Half(Half(w)), n + 1);
    NextBit(Half(Half(Half(w))), n);
  }

  lemma Digit(w: bv32, digit: bv32, more: bv32)
    requires w == (more << 4) | digit && digit < 16 && more < 0x1000_0000
    ensures Half(Half(Half(Half(w)))) == more
    ensures Odd(w) == (digit & 1 != 0) && Odd(Half(w)) == (digit & 2 != 0)
    ensures Odd(Half(Half(w))) == (digit & 4 != 0) && Odd(Half(Half(Half(w)))) == (digit & 8 != 0)
  {
  }

  lemma LowBits()
    ensures BitsOf(POLYNOMIAL, 32)
         == [false, false, false, false, false, true, false, false, true, true, false, false, false, false, false, true]
            + BitsOf(0xedb8, 16)
  {
    hide BitsOf, Half, Odd;
    Digit(0xedb88320, 0x0, 0xedb8832);
    FourBits(0xedb88320, 28);
    Digit(0xedb8832, 0x2, 0xedb883);
    FourBits(0xedb8832, 24);
    Digit(0xedb883, 0x3, 0xedb88);
    FourBits(0xedb883, 20);
    Digit(0xedb88, 0x8, 0xedb8);
    FourBits(0xedb88, 16);
  }

  lemma HighBits()
    ensures BitsOf(0xedb8, 16)
         == [false, false, false, true, true, true, false, true, true, false, true, true, false, true, true, true]
  {
    hide BitsOf, Half, Odd;
    Digit(0xedb8, 0x8, 0xedb);
    FourBits(0xedb8, 12);
    Digit(0xedb, 0xb, 0xed);
    FourBits(0xedb, 8);
    Digit(0xed, 0xd, 0xe);
    FourBits(0xed, 4);
    Digit(0xe, 0xe, 0x0);
    FourBits(0xe, 0);
    NoBitsLeft();
  }

  lemma NoBitsLeft()
    ensures BitsOf(0, 0) == []
  {
  }

  lemma PolynomialTerm(k: nat)
    requires k < 32
    ensures Coefficient(POLYNOMIAL, k) <==> k in GENERATOR
  {
    hide BitsOf;
    LowBits();
    if k < 16 {
      HighBits();
      assert BitsOf(POLYNOMIAL, 32)[31 - k] == BitsOf(0xedb8, 16)[15 - k];
    }
  }

  /** The polynomial constant is the generator without its leading term, in reflected order. */
  lemma PolynomialIsGenerator()
    ensures Coefficients(POLYNOMIAL) == GENERATOR - {32}
  {
    hide Coefficient;
    forall k: nat ensures k in Coefficients(POLYNOMIAL) <==> k in GENERATOR - {32} {
      if k < 32 {
        PolynomialTerm(k);
      }
    }
  }

  // ---------- Each bit is a step of long division ----------

  lemma ShiftSum(p: Polynomial, q: Polynomial, n: nat)
    ensures Shift(Sum(p, q), n) == Sum(Shift(p, n), Shift(q, n))
  {
    hide Shift;
    forall e: nat ensures e in Shift(Sum(p, q), n) <==> e in Sum(Shift(p, n), Shift(q, n)) {
      InShift(Sum(p, q), n, e);
      InShift(p, n, e);
      InShift(q, n, e);
    }
  }

  lemma ShiftShift(p: Polynomial, m: nat, n: nat)
    ensures Shift(Shift(p, m), n) == Shift(p, m + n)
  {
    hide Shift;
    forall e: nat ensures e in Shift(Shift(p, m), n) <==> e in Shift(p, m + n) {
      InShift(Shift(p, m), n, e);
      InShift(p, m + n, e);
      if e >= n {
        InShift(p, m, e - n);
      }
    }
  }

  lemma ShiftBit(x: bool, k: nat, n: nat)
    ensures Shift(Bit(x, {k}), n) == Bit(x, {k + n})
  {
    hide Shift;
    forall e: nat ensures e in Shift(Bit(x, {k}), n) <==> e in Bit(x, {k + n}) {
      InShift(Bit(x, {k}), n, e);
    }
  }

  lemma SumSwaps(a: Polynomial, b: Polynomial, c: Polynomial, d: Polynomial)
    ensures Sum(Sum(a, b), Sum(c, d)) == Sum(Sum(a, c), Sum(b, d))
    ensures Sum(Sum(a, b), c) == Sum(Sum(a, c), b)
    ensures Sum(Sum(a, b), c) == Sum(a, Sum(b, c))
    ensures Sum(Sum(a, b), b) == a
    ensures Sum(a, {}) == a && Sum({}, a) == a
  {
  }

  lemma ShiftLow(p: Polynomial)
    requires p <= Ones(32)
    ensures Shift(p, 1) == Sum(Shift(p - {31}, 1), Bit(31 in p, {32}))
  {
    hide Shift;
    forall e: nat ensures e in Shift(p, 1) <==> e in Sum(Shift(p - {31}, 1), Bit(31 in p, {32})) {
      InShift(p, 1, e);
      InShift(p - {31}, 1, e);
    }
  }

  /** A step of the register multiplies by x and subtracts the generator when the degree reaches thirty-two. */
  lemma StepDivides(c: bv32)
    ensures Coefficients(Step(c)) == Sum(Shift(Coefficients(c), 1), Bit(Odd(c), GENERATOR))
  {
    PolynomialIsGenerator();
    StepDividesBy(c, GENERATOR);
  }

  lemma StepDividesBy(c: bv32, g: Polynomial)
    requires 32 in g && Coefficients(POLYNOMIAL) == g - {32}
    ensures Coefficients(Step(c)) == Sum(Shift(Coefficients(c), 1), Bit(Odd(c), g))
  {
    hide Step, Half, Xor, Coefficients, Shift, Odd;
    var low := Shift(Coefficients(c) - {31}, 1);
    StepOfParts(c);
    OddIsLowBit(c);
    CoefficientsHalf(c);
    InOnes(c);
    ShiftLow(Coefficients(c));
    CoefficientsXor(Half(c), POLYNOMIAL);
    assert g == Sum({32}, g - {32});
    SumSwaps(low, {32}, {32}, g - {32});
    SumSwaps(low, {}, {}, {});
  }

  lemma OddIsLowBit(c: bv32)
    ensures Odd(c) <==> LowBit(c) != 0
  {
  }

  lemma InOnes(c: bv32)
    ensures Coefficients(c) <= Ones(32)
  {
  }

  lemma BitTerm(x: bool)
    ensures Coefficients(BitWord(x)) == Bit(x, {31})
  {
    hide BitsOf;
    var w := BitWord(x);
    assert Gone(w, 1) && Odd(w) == x;
    FirstBit(w);
    forall k: nat ensures k in Coefficients(w) <==> k in Bit(x, {31}) {
      if k < 31 {
        NoBitsBeyond(w, 1, 32, 31 - k);
      }
    }
  }

  lemma BitDivides(c: bv32, x: bool)
    ensures Coefficients(StepBit(c, x))
         == Sum(Sum(Shift(Coefficients(c), 1), Bit(x, {32})), Bit(Odd(Xor(c, BitWord(x))), GENERATOR))
  {
    hide Step, Xor, BitWord, Odd, Coefficients, Shift;
    CoefficientsXor(c, BitWord(x));
    BitTerm(x);
    StepDivides(Xor(c, BitWord(x)));
    ShiftSum(Coefficients(c), Bit(x, {31}), 1);
    ShiftBit(x, 31, 1);
  }

  /** One more bit of message, quotient and remainder. */
  lemma DivisionGrows(m: Polynomial, start: Polynomial, n: nat, t: Polynomial, r: Polynomial, x: bool, y: Polynomial)
    requires Sum(Shift(m, 32), Shift(start, n)) == Sum(t, r)
    ensures Sum(Shift(Sum(Shift(m, 1), Bit(x, {0})), 32), Shift(start, n + 1))
         == Sum(Sum(Shift(t, 1), y), Sum(Sum(Shift(r, 1), Bit(x, {32})), y))
  {
    hide Shift, Sum;
    var a, b, z := Shift(m, 33), Shift(start, n + 1), Bit(x, {32});
    ShiftSum(Shift(m, 1), Bit(x, {0}), 32);
    ShiftShift(m, 1, 32);
    ShiftBit(x, 0, 32);
    ShiftSum(Shift(m, 32), Shift(start, n), 1);
    ShiftSum(t, r, 1);
    ShiftShift(m, 32, 1);
    ShiftShift(start, n, 1);
    SumSwaps(a, z, b, {});
    SumSwaps(Shift(t, 1), y, Sum(Shift(r, 1), z), y);
    SumSwaps(Shift(t, 1), Sum(Shift(r, 1), z), y, y);
    SumSwaps(Shift(t, 1), Shift(r, 1), z, {});
    SumSelf(y);
    SumSwaps(Sum(Shift(t, 1), Sum(Shift(r, 1), z)), {}, {}, {});
  }

  lemma SumSelf(y: Polynomial)
    ensures Sum(y, y) == {}
  {
  }

  /** The register holds the remainder of what it has read. */
  lemma {:induction false} RunDivides(c: bv32, bits: seq<bool>) returns (q: seq<bool>)
    ensures Sum(Shift(Message(bits), 32), Shift(Coefficients(c), |bits|))
         == Sum(Times(q, GENERATOR), Coefficients(RunBits(c, bits)))
  {
    hide Shift, Sum, Coefficients, StepBit, RunBits, Odd, Xor;
    if bits == [] {
      q := [];
      NoBits(c);
      ShiftNothing(Coefficients(c));
    } else {
      var front, x := bits[..|bits| - 1], bits[|bits| - 1];
      var before := RunDivides(c, front);
      var crc := RunBits(c, front);
      var y := Odd(Xor(crc, BitWord(x)));
      q := before + [y];
      assert q[..|before|] == before && bits == front + [x];
      RunBitsConcat(c, front, [x]);
      OneBit(crc, x);
      BitDivides(crc, x);
      DivisionGrows(Message(front), Coefficients(c), |front|, Times(before, GENERATOR), Coefficients(crc), x,
                    Bit(y, GENERATOR));
    }
  }

  lemma OneBit(c: bv32, x: bool)
    ensures RunBits(c, [x]) == StepBit(c, x)
  {
    hide StepBit;
    NoBits(StepBit(c, x));
  }

  lemma ShiftNothing(p: Polynomial)
    ensures Sum(Shift({}, 32), Shift(p, 0)) == Sum({}, p)
  {
    forall e: nat ensures e in Shift(p, 0) <==> e in p {
      InShift(p, 0, e);
    }
  }

  // ---------- There is one remainder ----------

  lemma {:induction false} MultipleIsHigh(q: seq<bool>)
    ensures Times(q, GENERATOR) == {} || exists e :: e in Times(q, GENERATOR) && e >= 32
  {
    hide Shift;
    if q != [] {
      var t, x := Times(q[..|q| - 1], GENERATOR), q[|q| - 1];
      MultipleIsHigh(q[..|q| - 1]);
      if t == {} {
        forall e: nat ensures e !in Shift(t, 1) {
          InShift(t, 1, e);
        }
        assert x ==> 32 in Times(q, GENERATOR);
      } else {
        var e :| e in t && e >= 32;
        InShift(t, 1, e + 1);
        assert e + 1 in Times(q, GENERATOR);
      }
    }
  }

  function Longer(q: seq<bool>, n: nat): (r: seq<bool>)
    ensures |r| == n + |q|
  {
    seq(n, _ => false) + q
  }

  lemma {:induction false} LongerTimes(q: seq<bool>, n: nat)
    ensures Times(Longer(q, n), GENERATOR) == Times(q, GENERATOR)
    decreases n + |q|
  {
    hide Shift;
    var r := Longer(q, n);
    if q != [] {
      LongerTimes(q[..|q| - 1], n);
      assert r[..|r| - 1] == Longer(q[..|q| - 1], n);
    } else if n > 0 {
      LongerTimes(q, n - 1);
      assert r[..|r| - 1] == Longer(q, n - 1);
      forall e: nat ensures e !in Shift({}, 1) {
        InShift({}, 1, e);
      }
    }
  }

  function Added(p: seq<bool>, q: seq<bool>): (r: seq<bool>)
    requires |p| == |q|
    ensures |r| == |p|
  {
    seq(|p|, i requires 0 <= i < |p| => p[i] != q[i])
  }

  lemma {:induction false} TimesAdded(p: seq<bool>, q: seq<bool>)
    requires |p| == |q|
    ensures Times(Added(p, q), GENERATOR) == Sum(Times(p, GENERATOR), Times(q, GENERATOR))
  {
    hide Shift, Sum;
    if p == [] {
      SumSelf({});
    } else {
      var n := |p| - 1;
      TimesAdded(p[..n], q[..n]);
      assert Added(p, q)[..n] == Added(p[..n], q[..n]);
      var s, t := Times(p[..n], GENERATOR), Times(q[..n], GENERATOR);
      ShiftSum(s, t, 1);
      BitSum(p[n], q[n]);
      SumSwaps(Shift(s, 1), Bit(p[n], GENERATOR), Shift(t, 1), Bit(q[n], GENERATOR));
    }
  }

  lemma BitSum(x: bool, y: bool)
    ensures Bit(x != y, GENERATOR) == Sum(Bit(x, GENERATOR), Bit(y, GENERATOR))
  {
  }

  lemma RemainderIsUnique(dividend: Polynomial, r: Polynomial, other: Polynomial)
    requires LeavesRemainder(dividend, GENERATOR, r) && LeavesRemainder(dividend, GENERATOR, other)
    ensures r == other
  {
    hide Times;
    var p :| dividend == Sum(Times(p, GENERATOR), r);
    var q :| dividend == Sum(Times(q, GENERATOR), other);
    LongerTimes(p, |q|);
    LongerTimes(q, |p|);
    var all := Added(Longer(p, |q|), Longer(q, |p|));
    TimesAdded(Longer(p, |q|), Longer(q, |p|));
    MultipleIsHigh(all);
    SumsAgree(Times(p, GENERATOR), r, Times(q, GENERATOR), other);
    assert Times(all, GENERATOR) == Sum(r, other);
    assert Sum(r, other) <= Ones(32);
  }

  lemma SumsAgree(a: Polynomial, r: Polynomial, b: Polynomial, s: Polynomial)
    requires Sum(a, r) == Sum(b, s)
    ensures Sum(a, b) == Sum(r, s)
  {
    forall e: nat ensures e in Sum(a, b) <==> e in Sum(r, s) {
      assert e in Sum(a, r) <==> e in Sum(b, s);
    }
  }

  lemma {:induction false} SameBits(a: bv32, b: bv32, n: nat)
    requires Gone(a, n) && Gone(b, n) && BitsOf(a, n) == BitsOf(b, n)
    ensures a == b
    decreases n
  {
    hide Half, Odd, Xor, Double, BitWord;
    if n > 0 {
      assert BitsOf(a, n)[0] == Odd(a) && BitsOf(b, n)[0] == Odd(b);
      assert BitsOf(a, n)[1..] == BitsOf(Half(a), n - 1) && BitsOf(b, n)[1..] == BitsOf(Half(b), n - 1);
      SameBits(Half(a), Half(b), n - 1);
      SplitWord(a);
      SplitWord(b);
    }
  }

  lemma SameCoefficients(a: bv32, b: bv32)
    requires Coefficients(a) == Coefficients(b)
    ensures a == b
  {
    hide BitsOf, Gone;
    WordIsGone(a);
    WordIsGone(b);
    forall i | 0 <= i < 32 ensures BitsOf(a, 32)[i] == BitsOf(b, 32)[i] {
      assert 31 - i in Coefficients(a) <==> Coefficient(a, 31 - i);
      assert 31 - i in Coefficients(b) <==> Coefficient(b, 31 - i);
    }
    SameBits(a, b, 32);
  }

  lemma LowOnes()
    ensures forall i :: 0 <= i < 32 ==>
              BitsOf(0xffff_ffff, 32)[i] == if i < 16 then true else BitsOf(0xffff, 16)[i - 16]
  {
    hide BitsOf, Half, Odd;
    Digit(0xffffffff, 0xf, 0xfffffff);
    FourBits(0xffffffff, 28);
    Digit(0xfffffff, 0xf, 0xffffff);
    FourBits(0xfffffff, 24);
    Digit(0xffffff, 0xf, 0xfffff);
    FourBits(0xffffff, 20);
    Digit(0xfffff, 0xf, 0xffff);
    FourBits(0xfffff, 16);
  }

  lemma HighOnes()
    ensures forall i :: 0 <= i < 16 ==> BitsOf(0xffff, 16)[i]
  {
    hide BitsOf, Half, Odd;
    Digit(0xffff, 0xf, 0xfff);
    FourBits(0xffff, 12);
    Digit(0xfff, 0xf, 0xff);
    FourBits(0xfff, 8);
    Digit(0xff, 0xf, 0xf);
    FourBits(0xff, 4);
    Digit(0xf, 0xf, 0x0);
    FourBits(0xf, 0);
  }

  lemma AllOnes()
    ensures Coefficients(0xffff_ffff) == Ones(32)
  {
    hide BitsOf;
    LowOnes();
    HighOnes();
    forall k: nat ensures k in Coefficients(0xffff_ffff) <==> k in Ones(32) {
      if k < 32 {
        assert Coefficient(0xffff_ffff, k);
      }
    }
  }

  lemma RegisterIsRemainder(bytes: Bytes)
    ensures LeavesRemainder(Dividend(bytes), GENERATOR, Coefficients(Run(0xffff_ffff, bytes)))
  {
    hide Shift, Run, RunBits, BitString, Coefficients, Times, Sum;
    var q := RunDivides(0xffff_ffff, BitString(bytes));
    RunAsBits(0xffff_ffff, bytes);
    AllOnes();
    InOnes(Run(0xffff_ffff, bytes));
  }

  /** The checksum of a byte string is what division by the generator leaves, inverted. */
  lemma ChecksumIsRemainder(bytes: Bytes, checksum: bv32)
    ensures checksum == Checksum(bytes) <==>
            LeavesRemainder(Dividend(bytes), GENERATOR, Sum(Coefficients(checksum), Ones(32)))
  {
    hide Dividend, LeavesRemainder, Run, Coefficients, Sum, Ones;
    var register := Run(0xffff_ffff, bytes);
    RegisterIsRemainder(bytes);
    Inverted(checksum);
    InvertedWord(register);
    if LeavesRemainder(Dividend(bytes), GENERATOR, Coefficients(!checksum)) {
      RemainderIsUnique(Dividend(bytes), Coefficients(register), Coefficients(!checksum));
      SameCoefficients(register, !checksum);
      InvertedWord(checksum);
    }
  }

  lemma Inverted(w: bv32)
    ensures Coefficients(!w) == Sum(Coefficients(w), Ones(32))
  {
    hide Coefficients, Sum, Ones, Xor;
    AllOnes();
    CoefficientsXor(w, 0xffff_ffff);
    InvertedWord(w);
  }

  lemma InvertedWord(w: bv32)
    ensures Xor(w, 0xffff_ffff) == !w && !!w == w
  {
  }

  // ---------- The check value ----------

  function Digits(): Bytes {
    [0x31, 0x32, 0x33, 0x34, 0x35, 0x36, 0x37, 0x38, 0x39]
  }

  /** The catalogued check value of CRC-32, the checksum of the digits one to nine. */
  lemma CheckValue()
    ensures Checksum(Digits()) == 0xcbf4_3926
  {
    hide Feed, Run;
    CheckFeeds();
    NoBytes();
    RunPrefix(0);
    RunPrefix(1);
    RunPrefix(2);
    RunPrefix(3);
    RunPrefix(4);
    RunPrefix(5);
    RunPrefix(6);
    RunPrefix(7);
    RunPrefix(8);
    assert Digits()[..9] == Digits();
  }

  lemma NoBytes()
    ensures Run(0xffff_ffff, Digits()[..0]) == 0xffff_ffff
  {
  }

  lemma RunPrefix(k: nat)
    requires k < 9
    ensures Run(0xffff_ffff, Digits()[..k + 1]) == Feed(Run(0xffff_ffff, Digits()[..k]), Digits()[k])
  {
    hide Feed;
    assert Digits()[..k + 1][..k] == Digits()[..k];
  }

  lemma CheckFeeds()
    ensures Feed(0xffff_ffff, 0x31) == 0x7c23_1048
    ensures Feed(0x7c23_1048, 0x32) == 0xb0ac_bb32
    ensures Feed(0xb0ac_bb32, 0x33) == 0x77b7_9c2d
    ensures Feed(0x77b7_9c2d, 0x34) == 0x641c_1f5c
    ensures Feed(0x641c_1f5c, 0x35) == 0x340a_c5e3
    ensures Feed(0x340a_c5e3, 0x36) == 0xf68d_2c9e
    ensures Feed(0xf68d_2c9e, 0x37) == 0xaffc_9660
    ensures Feed(0xaffc_9660, 0x38) == 0x651f_2550
    ensures Feed(0x651f_2550, 0x39) == 0x340b_c6d9
  {
  }
}
