/**
 The CRC-32 of the source bundle writer: a reflected, bit-by-bit register over the
 polynomial 0xedb88320. The register is a u32, modelled as `bv32`.

 Main result: DetectsBurst, two byte strings of one length that differ, but only
 within thirty-two consecutive bits, never have the same checksum.
 */
module Crc32 {
  import opened Bytes

  const POLYNOMIAL: bv32 := 0xedb8_8320

  function Xor(a: bv32, b: bv32): bv32 {
    a ^ b
  }

  function Widen(byte: bv8): bv32 {
    byte as bv32
  }

  /** One turn of the inner loop: the mask selects the polynomial when the low bit is set. */
  function Step(crc: bv32): bv32 {
    (crc >> 1) ^ (POLYNOMIAL & (0 - (crc & 1)))
  }

  function Steps(crc: bv32, n: nat): bv32 {
    if n == 0 then crc else Step(Steps(crc, n - 1))
  }

  function Feed(crc: bv32, byte: bv8): bv32 {
    Steps(Xor(crc, Widen(byte)), 8)
  }

  function Run(crc: bv32, bytes: Bytes): bv32 {
    if bytes == [] then crc else Feed(Run(crc, bytes[..|bytes| - 1]), bytes[|bytes| - 1])
  }

  function Checksum(bytes: Bytes): bv32 {
    !Run(0xffff_ffff, bytes)
  }

  method FeedByte(register: bv32, byte: bv8) returns (crc: bv32)
    ensures crc == Feed(register, byte)
  {
    crc := register ^ byte as bv32;
    for k := 0 to 8
      invariant crc == Steps(Xor(register, Widen(byte)), k)
    {
      var mask := 0 - (crc & 1);
      crc := (crc >> 1) ^ (POLYNOMIAL & mask);
    }
  }

  method Compute(bytes: Bytes) returns (checksum: bv32)
    ensures checksum == Checksum(bytes)
  {
    var crc: bv32 := 0xffff_ffff;
    for i := 0 to |bytes|
      invariant crc == Run(0xffff_ffff, bytes[..i])
    {
      assert bytes[..i + 1][..i] == bytes[..i];
      crc := FeedByte(crc, bytes[i]);
    }
    assert bytes[..|bytes|] == bytes;
    checksum := !crc;
  }

  // ---------- The bit step is a linear bijection ----------

  /** The step backwards: the top bit tells whether the polynomial was mixed in. */
  function StepBack(crc: bv32): bv32 {
    if crc & 0x8000_0000 == 0 then crc << 1 else ((crc ^ POLYNOMIAL) << 1) | 1
  }

  lemma StepByCases(c: bv32)
    ensures Step(c) == if c & 1 == 0 then c >> 1 else (c >> 1) ^ POLYNOMIAL
  {
    assert c & 1 != 0 ==> 0 - (c & 1) == 0xffff_ffff;
  }

  lemma StepBackUndoesStep(c: bv32)
    ensures StepBack(Step(c)) == c
  {
    StepByCases(c);
  }

  lemma StepUndoesStepBack(c: bv32)
    ensures Step(StepBack(c)) == c
  {
    if c & 0x8000_0000 == 0 {
      assert (c << 1) & 1 == 0;
    } else {
      assert StepBack(c) & 1 == 1;
    }
  }

  function LowBit(c: bv32): bv32 {
    c & 1
  }

  function Half(c: bv32): bv32 {
    c >> 1
  }

  lemma StepOfParts(c: bv32)
    ensures Step(c) == if LowBit(c) == 0 then Half(c) else Xor(Half(c), POLYNOMIAL)
  {
    StepByCases(c);
  }

  lemma XorParts(a: bv32, b: bv32)
    ensures LowBit(Xor(a, b)) == 0 <==> (LowBit(a) == 0 <==> LowBit(b) == 0)
    ensures Half(Xor(a, b)) == Xor(Half(a), Half(b))
  {
  }

  lemma XorLaws(a: bv32, b: bv32, x: bv32)
    ensures Xor(Xor(a, x), b) == Xor(Xor(a, b), x)
    ensures Xor(a, Xor(b, x)) == Xor(Xor(a, b), x)
    ensures Xor(Xor(a, x), Xor(b, x)) == Xor(a, b)
  {
  }

  lemma StepLinear(a: bv32, b: bv32)
    ensures Step(Xor(a, b)) == Xor(Step(a), Step(b))
  {
    hide Step, Xor, LowBit, Half;
    StepOfParts(a);
    StepOfParts(b);
    StepOfParts(Xor(a, b));
    XorParts(a, b);
    XorLaws(Half(a), Half(b), POLYNOMIAL);
  }

  lemma {:induction false} StepsLinear(a: bv32, b: bv32, n: nat)
    ensures Steps(Xor(a, b), n) == Xor(Steps(a, n), Steps(b, n))
  {
    hide Step, Xor;
    if n != 0 {
      StepsLinear(a, b, n - 1);
      StepLinear(Steps(a, n - 1), Steps(b, n - 1));
    }
  }

  function StepsBack(crc: bv32, n: nat): bv32
    decreases n
  {
    if n == 0 then crc else StepsBack(StepBack(crc), n - 1)
  }

  lemma {:induction false} StepsBijective(c: bv32, n: nat)
    ensures StepsBack(Steps(c, n), n) == c
    ensures Steps(StepsBack(c, n), n) == c
    decreases n
  {
    hide Step, StepBack;
    if n != 0 {
      StepBackUndoesStep(Steps(c, n - 1));
      StepUndoesStepBack(c);
      StepsBijective(c, n - 1);
      StepsBijective(StepBack(c), n - 1);
    }
  }

  lemma StepsInjective(a: bv32, b: bv32, n: nat)
    requires Steps(a, n) == Steps(b, n)
    ensures a == b
  {
    hide Step, StepBack;
    StepsBijective(a, n);
    StepsBijective(b, n);
  }

  function FeedBack(crc: bv32, byte: bv8): bv32 {
    Xor(StepsBack(crc, 8), Widen(byte))
  }

  lemma XorTwice(a: bv32, x: bv32)
    ensures Xor(Xor(a, x), x) == a
  {
  }

  /** For each input byte the register update is a bijection of the 2^32 states. */
  lemma FeedBijective(c: bv32, byte: bv8)
    ensures FeedBack(Feed(c, byte), byte) == c
    ensures Feed(FeedBack(c, byte), byte) == c
  {
    hide Steps, StepsBack, Xor, Widen;
    StepsBijective(Xor(c, Widen(byte)), 8);
    StepsBijective(c, 8);
    XorTwice(c, Widen(byte));
    XorTwice(StepsBack(c, 8), Widen(byte));
  }

  // ---------- The register, bit by bit ----------

  function Double(z: bv32): bv32 {
    z << 1
  }

  predicate Below(z: bv32, bound: bv32) {
    z < bound
  }

  function BitWord(x: bool): bv32 {
    if x then 1 else 0
  }

  predicate Odd(w: bv32) {
    w & 1 != 0
  }

  /** One bit of input, lowest bits of a byte first. */
  function StepBit(crc: bv32, x: bool): bv32 {
    Step(Xor(crc, BitWord(x)))
  }

  function RunBits(crc: bv32, bits: seq<bool>): bv32
    decreases |bits|
  {
    if bits == [] then crc else RunBits(StepBit(crc, bits[0]), bits[1..])
  }

  function BitsOf(w: bv32, n: nat): (bits: seq<bool>)
    ensures |bits| == n
  {
    if n == 0 then [] else [Odd(w)] + BitsOf(Half(w), n - 1)
  }

  /** The word has no bits beyond the first n. */
  predicate Gone(w: bv32, n: nat) {
    if n == 0 then w == 0 else Gone(Half(w), n - 1)
  }

  function ByteBits(byte: bv8): (bits: seq<bool>)
    ensures |bits| == 8
  {
    BitsOf(Widen(byte), 8)
  }

  /** Bit i of a byte string, in the order the register takes them. */
  function BitAt(bytes: Bytes, i: nat): bool
    requires i < 8 * |bytes|
  {
    ByteBits(bytes[i / 8])[i % 8]
  }

  function BitString(bytes: Bytes): (bits: seq<bool>)
    ensures |bits| == 8 * |bytes|
  {
    if bytes == [] then [] else BitString(bytes[..|bytes| - 1]) + ByteBits(bytes[|bytes| - 1])
  }

  lemma {:induction false} BitStringAt(bytes: Bytes, i: nat)
    requires i < 8 * |bytes|
    ensures BitString(bytes)[i] == BitAt(bytes, i)
  {
    hide ByteBits;
    var n := |bytes| - 1;
    if i < 8 * n {
      BitStringAt(bytes[..n], i);
      assert bytes[..n][i / 8] == bytes[i / 8];
    } else {
      assert i / 8 == n && i % 8 == i - 8 * n;
    }
  }

  lemma {:induction false} StepsFront(c: bv32, n: nat)
    requires n > 0
    ensures Steps(c, n) == Steps(Step(c), n - 1)
  {
    hide Step;
    if n > 1 {
      StepsFront(c, n - 1);
    }
  }

  lemma StepOfDouble(z: bv32)
    requires Below(z, 0x8000_0000)
    ensures Step(Double(z)) == z
  {
    assert Double(z) & 1 == 0;
  }

  lemma SplitLow(w: bv32)
    ensures Xor(LowBit(w), Double(Half(w))) == w
  {
  }

  lemma OddWord(w: bv32)
    ensures BitWord(Odd(w)) == LowBit(w) && Below(Half(w), 0x8000_0000)
  {
    assert w & 1 == 0 || w & 1 == 1;
  }

  lemma SplitWord(w: bv32)
    ensures w == Xor(BitWord(Odd(w)), Double(Half(w))) && Below(Half(w), 0x8000_0000)
  {
    hide Xor, BitWord, Odd, LowBit, Double, Half, Below;
    SplitLow(w);
    OddWord(w);
  }

  lemma XorZero(c: bv32)
    ensures Xor(c, 0) == c
  {
  }

  /** Mixing in a word and stepping is mixing in its bits one by one, with a step after each. */
  lemma {:induction false} StepsAsBits(c: bv32, w: bv32, n: nat)
    requires Gone(w, n)
    ensures Steps(Xor(c, w), n) == RunBits(c, BitsOf(w, n))
    decreases n
  {
    hide Step, Xor, Half, Odd, BitWord, Double, Below;
    if n == 0 {
      XorZero(c);
    } else {
      var first := Xor(c, BitWord(Odd(w)));
      SplitWord(w);
      XorLaws(c, BitWord(Odd(w)), Double(Half(w)));
      StepsFront(Xor(c, w), n);
      StepLinear(first, Double(Half(w)));
      StepOfDouble(Half(w));
      StepsAsBits(Step(first), Half(w), n - 1);
      assert BitsOf(w, n)[1..] == BitsOf(Half(w), n - 1);
    }
  }

  lemma ByteIsGone(byte: bv8)
    ensures Gone(Widen(byte), 8)
  {
    GoneEighth(Widen(byte), 0);
    EighthIsShift(Widen(byte));
    assert (byte as bv32) >> 8 == 0;
  }

  lemma {:induction false} RunBitsConcat(crc: bv32, p: seq<bool>, q: seq<bool>)
    ensures RunBits(crc, p + q) == RunBits(RunBits(crc, p), q)
    decreases |p|
  {
    hide StepBit;
    if p == [] {
      assert p + q == q;
    } else {
      assert (p + q)[1..] == p[1..] + q;
      RunBitsConcat(StepBit(crc, p[0]), p[1..], q);
    }
  }

  lemma {:induction false} RunAsBits(crc: bv32, bytes: Bytes)
    ensures Run(crc, bytes) == RunBits(crc, BitString(bytes))
  {
    hide Steps, Xor, Widen, RunBits, BitsOf;
    if bytes == [] {
      NoBits(crc);
    } else {
      var front, last := bytes[..|bytes| - 1], bytes[|bytes| - 1];
      RunAsBits(crc, front);
      ByteIsGone(last);
      StepsAsBits(Run(crc, front), Widen(last), 8);
      RunBitsConcat(crc, BitString(front), ByteBits(last));
    }
  }

  lemma NoBits(crc: bv32)
    ensures RunBits(crc, []) == crc
  {
  }

  // ---------- Thirty-two bits fill the register ----------

  lemma {:induction false} GoneStays(w: bv32, n: nat, more: nat)
    requires Gone(w, n)
    ensures Gone(w, n + more)
    decreases n + more
  {
    if n > 0 {
      GoneStays(Half(w), n - 1, more);
    } else if more > 0 {
      GoneStays(Half(w), 0, more - 1);
    }
  }

  function Eighth(w: bv32): bv32 {
    Half(Half(Half(Half(Half(Half(Half(Half(w))))))))
  }

  lemma GoneHalf(w: bv32, n: nat)
    requires n > 0
    ensures Gone(w, n) <==> Gone(Half(w), n - 1)
  {
  }

  lemma GoneQuarter(w: bv32, n: nat)
    ensures Gone(w, n + 4) <==> Gone(Half(Half(Half(Half(w)))), n)
  {
    hide Half, Gone;
    GoneHalf(w, n + 4);
    GoneHalf(Half(w), n + 3);
    GoneHalf(Half(Half(w)), n + 2);
    GoneHalf(Half(Half(Half(w))), n + 1);
  }

  lemma GoneEighth(w: bv32, n: nat)
    ensures Gone(w, n + 8) <==> Gone(Eighth(w), n)
  {
    hide Half, Gone;
    GoneQuarter(w, n + 4);
    GoneQuarter(Half(Half(Half(Half(w)))), n);
  }

  lemma EighthIsShift(w: bv32)
    ensures Eighth(w) == w >> 8
  {
  }

  /** Without its top bit, a word is below 2^31. */
  lemma GoneBelow(w: bv32, n: nat)
    requires Gone(w, n) && n <= 31
    ensures Below(w, 0x8000_0000)
  {
    hide Half, Gone;
    GoneStays(w, n, 32 - n - 1);
    GoneShifts(w);
  }

  lemma GoneShifts(w: bv32)
    requires Gone(w, 31)
    ensures Below(w, 0x8000_0000)
  {
    hide Half, Gone, Eighth;
    GoneEighth(w, 23);
    GoneEighth(Eighth(w), 15);
    GoneEighth(Eighth(Eighth(w)), 7);
    EighthIsShift(w);
    EighthIsShift(Eighth(w));
    EighthIsShift(Eighth(Eighth(w)));
    GoneSeven(((w >> 8) >> 8) >> 8);
    TopBit(w);
  }

  lemma GoneSeven(w: bv32)
    requires Gone(w, 7)
    ensures w >> 7 == 0
  {
    GoneQuarter(w, 3);
    var h := Half(Half(Half(Half(w))));
    GoneHalf(h, 3);
    GoneHalf(Half(h), 2);
    GoneHalf(Half(Half(h)), 1);
    assert Half(Half(Half(h))) == 0;
  }

  lemma TopBit(w: bv32)
    requires (((w >> 8) >> 8) >> 8) >> 7 == 0
    ensures Below(w, 0x8000_0000)
  {
  }

  /** What one bit adds to a difference that is small afterwards. */
  lemma DifferenceBefore(e: bv32, z: bv32, after: bv32)
    requires Below(after, 0x8000_0000) && z <= 1 && Double(after) == Xor(e, z)
    ensures Half(e) == after && (e == 0 ==> z == 0 && after == 0)
  {
  }

  lemma StepBackSmall(z: bv32)
    requires Below(z, 0x8000_0000)
    ensures StepBack(z) == Double(z)
  {
  }

  lemma XorSame(c: bv32, d: bv32)
    ensures Xor(c, d) == 0 <==> c == d
  {
    hide Xor;
    XorTwice(c, d);
    XorWithZero(d);
    XorItself(c);
  }

  lemma XorWithZero(d: bv32)
    ensures Xor(0, d) == d
  {
  }

  lemma XorItself(c: bv32)
    ensures Xor(c, c) == 0
  {
  }

  lemma BitDifference(c: bv32, d: bv32, x: bool, y: bool)
    ensures Xor(Xor(c, BitWord(x)), Xor(d, BitWord(y))) == Xor(Xor(c, d), BitWord(x != y))
    ensures BitWord(x != y) <= 1 && (BitWord(x != y) == 0 <==> x == y)
  {
    hide Xor;
    XorLaws(c, d, BitWord(x));
    XorLaws(c, d, 1);
    XorZero(c);
    XorZero(d);
    XorZero(Xor(c, d));
  }

  /** Two runs of n bits into one state started no further apart than n bits; from one state they are equal. */
  lemma {:induction false} RunBitsInjective(c: bv32, d: bv32, a: seq<bool>, b: seq<bool>)
    requires |a| == |b| <= 32 && RunBits(c, a) == RunBits(d, b)
    ensures Gone(Xor(c, d), |a|)
    ensures c == d ==> a == b
    decreases |a|
  {
    hide Step, StepBack, Xor, BitWord, Double, Half, Below;
    XorSame(c, d);
    if a != [] {
      var c', d' := StepBit(c, a[0]), StepBit(d, b[0]);
      RunBitsInjective(c', d', a[1..], b[1..]);
      var after := Xor(c', d');
      var before := Xor(Xor(c, BitWord(a[0])), Xor(d, BitWord(b[0])));
      StepLinear(Xor(c, BitWord(a[0])), Xor(d, BitWord(b[0])));
      StepBackUndoesStep(before);
      GoneBelow(after, |a| - 1);
      StepBackSmall(after);
      BitDifference(c, d, a[0], b[0]);
      DifferenceBefore(Xor(c, d), BitWord(a[0] != b[0]), after);
      XorSame(c', d');
      assert a == [a[0]] + a[1..] && b == [b[0]] + b[1..];
    }
  }

  lemma {:induction false} SameInputInjective(c: bv32, d: bv32, bits: seq<bool>)
    requires RunBits(c, bits) == RunBits(d, bits)
    ensures c == d
    decreases |bits|
  {
    hide Step, StepBack, Xor, BitWord;
    if bits != [] {
      var x := BitWord(bits[0]);
      SameInputInjective(StepBit(c, bits[0]), StepBit(d, bits[0]), bits[1..]);
      StepBackUndoesStep(Xor(c, x));
      StepBackUndoesStep(Xor(d, x));
      XorTwice(c, x);
      XorTwice(d, x);
    }
  }

  lemma WidenInjective(a: bv8, b: bv8)
    ensures Xor(0, Widen(a)) == Xor(0, Widen(b)) ==> a == b
  {
  }

  lemma ByteBitsInjective(a: bv8, b: bv8)
    requires ByteBits(a) == ByteBits(b)
    ensures a == b
  {
    hide Steps, Xor, Widen, RunBits, BitsOf;
    ByteIsGone(a);
    ByteIsGone(b);
    StepsAsBits(0, Widen(a), 8);
    StepsAsBits(0, Widen(b), 8);
    StepsInjective(Xor(0, Widen(a)), Xor(0, Widen(b)), 8);
    WidenInjective(a, b);
  }

  /** Different bytes differ in a bit. */
  lemma DifferentBit(a: Bytes, b: Bytes, k: nat) returns (i: nat)
    requires |a| == |b| && k < |a| && a[k] != b[k]
    ensures 8 * k <= i < 8 * k + 8 && BitAt(a, i) != BitAt(b, i)
  {
    hide ByteBits;
    if ByteBits(a[k]) == ByteBits(b[k]) {
      ByteBitsInjective(a[k], b[k]);
    }
    var j :| 0 <= j < 8 && ByteBits(a[k])[j] != ByteBits(b[k])[j];
    i := 8 * k + j;
    assert i / 8 == k && i % 8 == j;
  }

  /** The two strings differ only in bits of the window. */
  ghost predicate BurstAt(a: Bytes, b: Bytes, at: nat)
    requires |a| == |b|
  {
    forall i :: 0 <= i < 8 * |a| && BitAt(a, i) != BitAt(b, i) ==> at <= i < at + 32
  }

  lemma ChecksumOfRun(a: Bytes)
    ensures !Checksum(a) == Run(0xffff_ffff, a)
  {
    hide Run;
  }

  /** A change confined to thirty-two consecutive bits always changes the checksum. */
  lemma DetectsBurst(a: Bytes, b: Bytes, at: nat)
    requires |a| == |b| && a != b && BurstAt(a, b, at)
    ensures Checksum(a) != Checksum(b)
  {
    hide Run, Checksum, RunBits, BitString, BitAt;
    var x, y := BitString(a), BitString(b);
    forall i | 0 <= i < |x| ensures x[i] == BitAt(a, i) && y[i] == BitAt(b, i) {
      BitStringAt(a, i);
      BitStringAt(b, i);
    }
    var k :| 0 <= k < |a| && a[k] != b[k];
    var different := DifferentBit(a, b, k);
    if Checksum(a) == Checksum(b) {
      ChecksumOfRun(a);
      ChecksumOfRun(b);
      RunAsBits(0xffff_ffff, a);
      RunAsBits(0xffff_ffff, b);
      SameWindow(0xffff_ffff, x, y, at);
      assert false;
    }
  }

  lemma SameWindow(start: bv32, x: seq<bool>, y: seq<bool>, at: nat)
    requires |x| == |y| && RunBits(start, x) == RunBits(start, y)
    requires forall i :: 0 <= i < |x| && x[i] != y[i] ==> at <= i < at + 32
    ensures x == y
  {
    hide RunBits;
    var lo := if at < |x| then at else |x|;
    var hi := if at + 32 < |x| then at + 32 else |x|;
    assert x[..lo] == y[..lo] && x[hi..] == y[hi..];
    assert x == x[..lo] + x[lo..hi] + x[hi..] && y == y[..lo] + y[lo..hi] + y[hi..];
    RunBitsConcat(start, x[..lo] + x[lo..hi], x[hi..]);
    RunBitsConcat(start, y[..lo] + y[lo..hi], y[hi..]);
    SameInputInjective(RunBits(start, x[..lo] + x[lo..hi]), RunBits(start, y[..lo] + y[lo..hi]), x[hi..]);
    RunBitsConcat(start, x[..lo], x[lo..hi]);
    RunBitsConcat(start, y[..lo], y[lo..hi]);
    var c := RunBits(start, x[..lo]);
    RunBitsInjective(c, c, x[lo..hi], y[lo..hi]);
  }
}
