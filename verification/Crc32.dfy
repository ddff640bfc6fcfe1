// The table-driven CRC-32 of bochs/crc.cc, most significant bit first.
module Crc32 {
  const POLY: bv32 := 0x04c11db7
  const TOP: bv32 := 0x8000_0000

  // The generator of section 3.2.9 of IEEE 802.3, without its term in x^32.
  lemma GeneratorTerms()
    ensures POLY == (1 << 26) ^ (1 << 23) ^ (1 << 22) ^ (1 << 16) ^ (1 << 12) ^ (1 << 11) ^ (1 << 10)
                    ^ (1 << 8) ^ (1 << 7) ^ (1 << 5) ^ (1 << 4) ^ (1 << 2) ^ (1 << 1) ^ 1
  {
  }

  // ---- The computation, byte by byte ----

  // One turn of the table-building loop: multiply by x and reduce.
  function Step(c: bv32): bv32 {
    if c & TOP != 0 then (c << 1) ^ POLY else c << 1
  }

  function StepN(c: bv32, n: nat): bv32
    decreases n
  {
    if n == 0 then c else StepN(Step(c), n - 1)
  }

  function Entry(i: bv32): bv32 {
    StepN(i << 24, 8)
  }

  // One turn of the message loop.
  function ByteStep(crc: bv32, b: bv8): bv32 {
    (crc << 8) ^ Entry((crc >> 24) ^ (b as bv32))
  }

  function Fold(crc: bv32, buf: seq<bv8>): bv32
    decreases |buf|
  {
    if buf == [] then crc else Fold(ByteStep(crc, buf[0]), buf[1..])
  }

  function Complement(x: bv32): bv32 { !x }

  function Extend(seed: bv32, buf: seq<bv8>): bv32 {
    Complement(Fold(Complement(seed), buf))
  }

  function Crc(buf: seq<bv8>): bv32 {
    Extend(0, buf)
  }

  lemma {:induction false} FoldAppend(crc: bv32, a: seq<bv8>, b: seq<bv8>)
    ensures Fold(crc, a + b) == Fold(Fold(crc, a), b)
    decreases |a|
  {
    if a == [] {
      assert a + b == b;
    } else {
      assert (a + b)[1..] == a[1..] + b;
      FoldAppend(ByteStep(crc, a[0]), a[1..], b);
    }
  }

  lemma ComplementTwice(x: bv32)
    ensures Complement(Complement(x)) == x
  {
  }

  // Going on from a finalized CRC gives the CRC of the two buffers one after the other.
  lemma ExtendIsAppend(seed: bv32, a: seq<bv8>, b: seq<bv8>)
    ensures Extend(Extend(seed, a), b) == Extend(seed, a + b)
  {
    hide Fold, Complement;
    FoldAppend(Complement(seed), a, b);
    ComplementTwice(Fold(Complement(seed), a));
  }

  // ---- Algebra of the step ----

  // Addition of polynomials. The proofs below treat it as an operation with these laws.
  function Xor(a: bv32, b: bv32): bv32 { a ^ b }

  lemma XorCommutes(a: bv32, b: bv32)
    ensures Xor(a, b) == Xor(b, a)
  {
  }

  lemma XorAssociates(a: bv32, b: bv32, c: bv32)
    ensures Xor(Xor(a, b), c) == Xor(a, Xor(b, c))
  {
  }

  lemma XorZero(a: bv32)
    ensures Xor(a, 0) == a && Xor(0, a) == a && Xor(a, a) == 0
  {
  }

  lemma XorCancels(a: bv32, b: bv32, c: bv32)
    requires Xor(a, b) == Xor(a, c)
    ensures b == c
  {
  }

  lemma XorSwap(a: bv32, b: bv32, c: bv32, d: bv32)
    ensures Xor(Xor(a, b), Xor(c, d)) == Xor(Xor(a, c), Xor(b, d))
  {
    hide Xor;
    XorAssociates(a, b, Xor(c, d));
    XorAssociates(b, c, d);
    XorCommutes(b, c);
    XorAssociates(c, b, d);
    XorAssociates(a, c, Xor(b, d));
  }

  lemma StepCases(a: bv32)
    ensures a & TOP != 0 ==> Step(a) == (a << 1) ^ POLY
    ensures a & TOP == 0 ==> Step(a) == a << 1
  {
  }

  lemma BothTop(a: bv32, b: bv32)
    requires a & TOP != 0 && b & TOP != 0
    ensures (a ^ b) & TOP == 0 && (a ^ b) << 1 == ((a << 1) ^ POLY) ^ ((b << 1) ^ POLY)
  {
  }

  lemma OneTop(a: bv32, b: bv32)
    requires a & TOP != 0 && b & TOP == 0
    ensures (a ^ b) & TOP != 0 && ((a ^ b) << 1) ^ POLY == ((a << 1) ^ POLY) ^ (b << 1)
  {
  }

  lemma NoTop(a: bv32, b: bv32)
    requires a & TOP == 0 && b & TOP == 0
    ensures (a ^ b) & TOP == 0 && (a ^ b) << 1 == (a << 1) ^ (b << 1)
  {
  }

  lemma StepXor(a: bv32, b: bv32)
    requires a & TOP != 0 || b & TOP == 0
    ensures Step(a ^ b) == Step(a) ^ Step(b)
  {
    hide Step;
    StepCases(a);
    StepCases(b);
    StepCases(a ^ b);
    if a & TOP == 0 {
      NoTop(a, b);
    } else if b & TOP != 0 {
      BothTop(a, b);
    } else {
      OneTop(a, b);
    }
  }

  lemma StepLinear(a: bv32, b: bv32)
    ensures Step(Xor(a, b)) == Xor(Step(a), Step(b))
  {
    hide Step;
    if a & TOP != 0 || b & TOP == 0 {
      StepXor(a, b);
    } else {
      StepXor(b, a);
      XorCommutes(a, b);
      XorCommutes(Step(a), Step(b));
    }
  }

  lemma {:induction false} StepNLinear(a: bv32, b: bv32, n: nat)
    ensures StepN(Xor(a, b), n) == Xor(StepN(a, n), StepN(b, n))
    decreases n
  {
    hide Step, Xor;
    if n > 0 {
      StepLinear(a, b);
      StepNLinear(Step(a), Step(b), n - 1);
    }
  }

  predicate HasTop(c: bv32) { c & TOP != 0 }
  function Twice(c: bv32): bv32 { c << 1 }
  function TwiceReduced(c: bv32): bv32 { (c << 1) ^ POLY }

  lemma StepIs(a: bv32)
    ensures Step(a) == if HasTop(a) then TwiceReduced(a) else Twice(a)
  {
  }

  // The generator has a constant term, so a step loses nothing.
  lemma StepInjective(a: bv32, b: bv32)
    requires Step(a) == Step(b)
    ensures a == b
  {
    hide Step, HasTop, Twice, TwiceReduced;
    StepIs(a);
    StepIs(b);
    NeverMixed(a, b);
    NeverMixed(b, a);
    Halves(a, b);
    HalvesReduced(a, b);
  }

  lemma NeverMixed(a: bv32, b: bv32)
    ensures TwiceReduced(a) != Twice(b)
  {
  }

  lemma Halves(a: bv32, b: bv32)
    ensures !HasTop(a) && !HasTop(b) && Twice(a) == Twice(b) ==> a == b
  {
  }

  lemma HalvesReduced(a: bv32, b: bv32)
    ensures HasTop(a) && HasTop(b) && TwiceReduced(a) == TwiceReduced(b) ==> a == b
  {
  }

  lemma {:induction false} StepNInjective(a: bv32, b: bv32, n: nat)
    requires StepN(a, n) == StepN(b, n)
    ensures a == b
    decreases n
  {
    hide Step;
    if n > 0 {
      StepNInjective(Step(a), Step(b), n - 1);
      StepInjective(a, b);
    }
  }

  lemma {:induction false} StepNCommutes(c: bv32, n: nat)
    ensures Step(StepN(c, n)) == StepN(Step(c), n)
    decreases n
  {
    hide Step;
    if n > 0 {
      StepNCommutes(Step(c), n - 1);
    }
  }

  lemma {:induction false} StepNSum(c: bv32, m: nat, n: nat)
    ensures StepN(StepN(c, m), n) == StepN(c, m + n)
    decreases m
  {
    hide Step;
    if m > 0 {
      StepNSum(Step(c), m - 1, n);
    }
  }

  lemma {:induction false} StepNZero(n: nat)
    ensures StepN(0, n) == 0
    decreases n
  {
    if n > 0 {
      StepNZero(n - 1);
    }
  }

  // The top `k` bits are clear.
  predicate Room(c: bv32, k: nat)
    decreases k
  {
    k == 0 || (c & TOP == 0 && Room(c << 1, k - 1))
  }

  function ShiftN(c: bv32, k: nat): bv32
    decreases k
  {
    if k == 0 then c else ShiftN(c << 1, k - 1)
  }

  lemma TopNibbleClear(c: bv32)
    requires c & 0xf000_0000 == 0
    ensures c & TOP == 0 && (c << 1) & TOP == 0 && ((c << 1) << 1) & TOP == 0 && (((c << 1) << 1) << 1) & TOP == 0
  {
  }

  lemma FourUp(c: bv32, k: nat)
    requires k >= 4 && c & TOP == 0 && (c << 1) & TOP == 0 && ((c << 1) << 1) & TOP == 0
    requires (((c << 1) << 1) << 1) & TOP == 0
    ensures Room(c, k) <==> Room((((c << 1) << 1) << 1) << 1, k - 4)
  {
    assert Room(c << 1, k - 1) <==> Room((c << 1) << 1, k - 2);
    assert Room((c << 1) << 1, k - 2) <==> Room(((c << 1) << 1) << 1, k - 3);
  }

  // A value without its top byte only moves up.
  lemma ShiftUp(c: bv32)
    requires c & 0xff00_0000 == 0
    ensures StepN(c, 8) == c << 8
  {
  }

  // The table step is eight single steps on the register with the byte added at the top.
  lemma TableStep(crc: bv32, b: bv8)
    ensures ByteStep(crc, b) == StepN(Xor(crc, (b as bv32) << 24), 8)
  {
    hide Step, StepN;
    var low, high := crc & 0x00ff_ffff, ((crc >> 24) ^ (b as bv32)) << 24;
    Parts(crc, b);
    StepNLinear(low, high, 8);
    ShiftUp(low);
  }

  lemma Parts(crc: bv32, b: bv8)
    ensures Xor(crc, (b as bv32) << 24) == Xor(crc & 0x00ff_ffff, ((crc >> 24) ^ (b as bv32)) << 24)
    ensures (crc & 0x00ff_ffff) & 0xff00_0000 == 0 && (crc & 0x00ff_ffff) << 8 == crc << 8
  {
  }

  // ---- The computation, bit by bit ----

  function Bit(b: bool): bv32 { if b then 1 else 0 }
  function TopBit(b: bool): bv32 { if b then TOP else 0 }

  // Feed bits in at the top of the register.
  function Serial(c: bv32, bits: seq<bool>): bv32
    decreases |bits|
  {
    if bits == [] then c else Serial(Step(Xor(c, TopBit(bits[0]))), bits[1..])
  }

  // The first `k` bits of a word, and the bits of a byte and of a message, most significant first.
  function WordBits(w: bv32, k: nat): (r: seq<bool>)
    ensures |r| == k
    decreases k
  {
    if k == 0 then [] else [w & TOP != 0] + WordBits(w << 1, k - 1)
  }

  function ByteBits(b: bv8): (r: seq<bool>)
    ensures |r| == 8
  {
    WordBits((b as bv32) << 24, 8)
  }

  function MessageBits(buf: seq<bv8>): (r: seq<bool>)
    ensures |r| == 8 * |buf|
    decreases |buf|
  {
    if buf == [] then [] else ByteBits(buf[0]) + MessageBits(buf[1..])
  }

  lemma {:induction false} SerialAppend(c: bv32, x: seq<bool>, y: seq<bool>)
    ensures Serial(c, x + y) == Serial(Serial(c, x), y)
    decreases |x|
  {
    hide Step, Xor, TopBit;
    if x == [] {
      assert x + y == y;
    } else {
      assert (x + y)[1..] == x[1..] + y;
      SerialAppend(Step(Xor(c, TopBit(x[0]))), x[1..], y);
    }
  }

  lemma TopSplit(w: bv32)
    ensures TopBit(w & TOP != 0) ^ (w & 0x7fff_ffff) == w
    ensures (w & 0x7fff_ffff) & TOP == 0 && (w & 0x7fff_ffff) << 1 == w << 1
  {
  }

  // Feeding the top bits of a word one by one is the same as adding them all at once.
  lemma {:induction false} FeedWord(c: bv32, w: bv32, k: nat)
    requires ShiftN(w, k) == 0
    ensures Serial(c, WordBits(w, k)) == StepN(Xor(c, w), k)
    decreases k
  {
    hide Step, Xor, TopBit;
    if k == 0 {
      XorZero(c);
    } else {
      var t, rest := TopBit(w & TOP != 0), w & 0x7fff_ffff;
      FeedTop(c, w);
      assert WordBits(w, k)[1..] == WordBits(w << 1, k - 1);
      FeedWord(Step(Xor(c, t)), w << 1, k - 1);
    }
  }

  function Low(w: bv32): bv32 { w & 0x7fff_ffff }

  lemma FeedTop(c: bv32, w: bv32)
    ensures Step(Xor(c, w)) == Xor(Step(Xor(c, TopBit(w & TOP != 0))), w << 1)
  {
    hide Step, Xor, TopBit, Low;
    var t := TopBit(w & TOP != 0);
    TopParts(w);
    LowStep(w);
    XorAssociates(c, t, Low(w));
    StepLinear(Xor(c, t), Low(w));
  }

  lemma TopParts(w: bv32)
    ensures Xor(TopBit(w & TOP != 0), Low(w)) == w
  {
    TopSplit(w);
  }

  lemma LowStep(w: bv32)
    ensures Step(Low(w)) == w << 1
  {
    hide Step;
    TopSplit(w);
    StepCases(Low(w));
  }

  lemma ByteGone(b: bv8)
    ensures ShiftN((b as bv32) << 24, 8) == 0
  {
  }

  // The table form is the bit-serial form.
  lemma {:induction false} FoldIsSerial(crc: bv32, buf: seq<bv8>)
    ensures Fold(crc, buf) == Serial(crc, MessageBits(buf))
    decreases |buf|
  {
    hide Step, Xor, ByteStep, WordBits;
    if buf != [] {
      TableStep(crc, buf[0]);
      ByteGone(buf[0]);
      FeedWord(crc, (buf[0] as bv32) << 24, 8);
      SerialAppend(crc, ByteBits(buf[0]), MessageBits(buf[1..]));
      FoldIsSerial(ByteStep(crc, buf[0]), buf[1..]);
    }
  }

  lemma {:induction false} SerialSplit(c: bv32, bits: seq<bool>)
    ensures Serial(c, bits) == Xor(StepN(c, |bits|), Serial(0, bits))
    decreases |bits|
  {
    hide Step, Xor, TopBit;
    if bits == [] {
      XorZero(c);
    } else {
      var t := TopBit(bits[0]);
      StepLinear(c, t);
      XorZero(t);
      SerialSplit(Xor(Step(c), Step(t)), bits[1..]);
      SerialSplit(Step(t), bits[1..]);
      StepNLinear(Step(c), Step(t), |bits| - 1);
      XorAssociates(StepN(c, |bits|), StepN(Step(t), |bits| - 1), Serial(0, bits[1..]));
    }
  }

  // ---- Division of polynomials ----

  // A coefficient brought down.
  function Pushed(r: bv32, b: bool): bv32 { (r << 1) | Bit(b) }

  // One line of long division by x^32 + POLY: bring down the next coefficient, and subtract the
  // generator if a term in x^32 has come up.
  function BringDown(r: bv32, b: bool): bv32 {
    if r & TOP != 0 then Pushed(r, b) ^ POLY else Pushed(r, b)
  }

  // The remainder of the polynomial with the given coefficients, highest first, when `r` is what is
  // left of those before.
  function Remainder(r: bv32, coefficients: seq<bool>): bv32
    decreases |coefficients|
  {
    if coefficients == [] then r else Remainder(BringDown(r, coefficients[0]), coefficients[1..])
  }

  function Repeat(b: bool, n: nat): (r: seq<bool>)
    ensures |r| == n && forall k :: 0 <= k < n ==> r[k] == b
  {
    seq(n, _ => b)
  }

  // The frame check sequence of section 3.2.9 of IEEE 802.3, with the bits of each byte in the order
  // of this file: append 32 zeros, complement the first 32 bits, divide, complement the remainder.
  function Padded(buf: seq<bv8>): (r: seq<bool>)
    ensures |r| == 8 * |buf| + 32
  {
    MessageBits(buf) + Repeat(false, 32)
  }

  function FrameCheck(buf: seq<bv8>): bv32 {
    var p := Padded(buf);
    Complement(Remainder(0, seq(|p|, k requires 0 <= k < |p| => if k < 32 then !p[k] else p[k])))
  }

  lemma LowBit(r: bv32, b: bv32)
    requires b & 0xffff_fffe == 0
    ensures (r << 1) | b == (r << 1) ^ b
  {
  }

  lemma LowBitReduced(r: bv32, b: bv32)
    requires b & 0xffff_fffe == 0
    ensures ((r << 1) | b) ^ POLY == ((r << 1) ^ POLY) ^ b
  {
  }

  lemma BringDownCases(r: bv32, b: bool)
    ensures r & TOP != 0 ==> BringDown(r, b) == ((r << 1) | Bit(b)) ^ POLY
    ensures r & TOP == 0 ==> BringDown(r, b) == Pushed(r, b) == (r << 1) | Bit(b)
  {
    hide Bit;
  }

  lemma SingleBit(b: bool)
    ensures Bit(b) & 0xffff_fffe == 0
  {
  }

  lemma XorIs(a: bv32, b: bv32)
    ensures Xor(a, b) == a ^ b
  {
  }

  lemma BringDownIs(r: bv32, b: bool)
    ensures BringDown(r, b) == Xor(Step(r), Bit(b))
  {
    hide Step, Bit, BringDown, Xor;
    StepCases(r);
    BringDownCases(r, b);
    SingleBit(b);
    XorIs(Step(r), Bit(b));
    if r & TOP != 0 {
      LowBitReduced(r, Bit(b));
    } else {
      LowBit(r, Bit(b));
    }
  }

  lemma {:induction false} RemainderAppend(r: bv32, x: seq<bool>, y: seq<bool>)
    ensures Remainder(r, x + y) == Remainder(Remainder(r, x), y)
    decreases |x|
  {
    hide BringDown;
    if x == [] {
      assert x + y == y;
    } else {
      assert (x + y)[1..] == x[1..] + y;
      RemainderAppend(BringDown(r, x[0]), x[1..], y);
    }
  }

  lemma {:induction false} RemainderOfZeros(r: bv32, n: nat)
    ensures Remainder(r, Repeat(false, n)) == StepN(r, n)
    decreases n
  {
    hide BringDown, Step, Xor;
    if n > 0 {
      BringDownIs(r, false);
      XorZero(Step(r));
      assert Repeat(false, n)[1..] == Repeat(false, n - 1);
      RemainderOfZeros(Step(r), n - 1);
    }
  }

  function XorBits(x: seq<bool>, y: seq<bool>): (r: seq<bool>)
    requires |x| == |y|
    ensures |r| == |x| && forall k :: 0 <= k < |x| ==> r[k] == (x[k] != y[k])
  {
    seq(|x|, k requires 0 <= k < |x| => x[k] != y[k])
  }

  lemma BitXor(a: bool, b: bool)
    ensures Bit(a != b) == Xor(Bit(a), Bit(b))
  {
  }

  lemma BringDownLinear(r: bv32, s: bv32, a: bool, b: bool)
    ensures BringDown(Xor(r, s), a != b) == Xor(BringDown(r, a), BringDown(s, b))
  {
    hide BringDown, Step, Xor, Bit;
    BringDownIs(r, a);
    BringDownIs(s, b);
    BringDownIs(Xor(r, s), a != b);
    BitXor(a, b);
    StepLinear(r, s);
    XorSwap(Step(r), Step(s), Bit(a), Bit(b));
  }

  lemma {:induction false} RemainderLinear(r: bv32, s: bv32, x: seq<bool>, y: seq<bool>)
    requires |x| == |y|
    ensures Remainder(Xor(r, s), XorBits(x, y)) == Xor(Remainder(r, x), Remainder(s, y))
    decreases |x|
  {
    hide BringDown, Xor;
    if x != [] {
      BringDownLinear(r, s, x[0], y[0]);
      assert XorBits(x, y)[1..] == XorBits(x[1..], y[1..]);
      RemainderLinear(BringDown(r, x[0]), BringDown(s, y[0]), x[1..], y[1..]);
    }
  }

  // ---- The bit-serial form computes remainders ----

  lemma EntryOne()
    ensures StepN(0x0100_0000, 8) == POLY && Step(TOP) == POLY
  {
  }

  lemma UnitUp(b: bool)
    ensures StepN(Bit(b), 32) == Step(TopBit(b))
  {
    hide Step, StepN;
    if b {
      ShiftUp(1);
      ShiftUp(0x100);
      ShiftUp(0x1_0000);
      StepNSum(1, 8, 8);
      StepNSum(1, 16, 8);
      StepNSum(1, 24, 8);
      EntryOne();
    } else {
      StepNZero(32);
      StepCases(0);
    }
  }

  lemma {:induction false} SerialIsRemainder(r: bv32, bits: seq<bool>)
    ensures Serial(StepN(r, 32), bits) == StepN(Remainder(r, bits), 32)
    decreases |bits|
  {
    hide Step, StepN, Xor, BringDown, Bit, TopBit;
    if bits != [] {
      var b := bits[0];
      BringDownIs(r, b);
      UnitUp(b);
      StepNLinear(Step(r), Bit(b), 32);
      StepNCommutes(r, 32);
      StepLinear(StepN(r, 32), TopBit(b));
      SerialIsRemainder(BringDown(r, b), bits[1..]);
    }
  }

  // From an empty register: the remainder of the bits followed by 32 zeros.
  lemma SerialFromZero(bits: seq<bool>)
    ensures Serial(0, bits) == StepN(Remainder(0, bits), 32) == Remainder(0, bits + Repeat(false, 32))
  {
    hide Step, StepN, BringDown;
    StepNZero(32);
    SerialIsRemainder(0, bits);
    RemainderAppend(0, bits, Repeat(false, 32));
    RemainderOfZeros(Remainder(0, bits), 32);
  }

  // ---- The main results ----

  lemma OnesRemainder()
    ensures Remainder(0, Repeat(true, 32)) == 0xffff_ffff
  {
    hide BringDown, Step, StepN, Remainder, Xor;
    OnesConstants();
    var eight, sixteen := Repeat(true, 8), Repeat(true, 16);
    EightOnes();
    MoreOnes(0xff);
    assert eight + eight == sixteen;
    RemainderAppend(0, eight, eight);
    MoreOnes(0xffff);
    assert sixteen + eight == Repeat(true, 24);
    RemainderAppend(0, sixteen, eight);
    MoreOnes(0xff_ffff);
    assert Repeat(true, 24) + eight == Repeat(true, 32);
    RemainderAppend(0, Repeat(true, 24), eight);
  }

  lemma OnesConstants()
    ensures Xor(0xff << 8, 0xff) == 0xffff && Xor(0xffff << 8, 0xff) == 0xff_ffff
    ensures Xor(0xff_ffff << 8, 0xff) == 0xffff_ffff
  {
  }

  lemma EightOnes()
    ensures Remainder(0, Repeat(true, 8)) == 0xff
  {
  }

  lemma MoreOnes(r: bv32)
    requires r & 0xff00_0000 == 0
    ensures Remainder(r, Repeat(true, 8)) == Xor(r << 8, 0xff)
  {
    hide BringDown, Step, StepN, Xor;
    var zeros, ones := Repeat(false, 8), Repeat(true, 8);
    assert XorBits(zeros, ones) == ones;
    RemainderLinear(r, 0, zeros, ones);
    XorZero(r);
    RemainderOfZeros(r, 8);
    ShiftUp(r);
    EightOnes();
  }

  // The table-driven CRC of every message is its frame check sequence.
  lemma CrcIsFrameCheck(buf: seq<bv8>)
    ensures Crc(buf) == FrameCheck(buf)
  {
    hide BringDown, Step, StepN, Xor, Fold, Serial, Remainder, MessageBits;
    var bits, p := MessageBits(buf), Padded(buf);
    var start := Complement(0);
    FoldIsSerial(start, buf);
    SerialSplit(start, bits);
    SerialFromZero(bits);
    var mask := Repeat(true, 32) + Repeat(false, |bits|);
    assert seq(|p|, k requires 0 <= k < |p| => if k < 32 then !p[k] else p[k]) == XorBits(p, mask);
    RemainderLinear(0, 0, p, mask);
    XorZero(0);
    RemainderAppend(0, Repeat(true, 32), Repeat(false, |bits|));
    OnesRemainder();
    RemainderOfZeros(0xffff_ffff, |bits|);
    XorCommutes(StepN(start, |bits|), Remainder(0, p));
  }

  // ---- Bursts ----

  lemma {:induction false} SerialInjective(c: bv32, d: bv32, bits: seq<bool>)
    requires Serial(c, bits) == Serial(d, bits)
    ensures c == d
    decreases |bits|
  {
    hide Step, StepN, Xor;
    SerialSplit(c, bits);
    SerialSplit(d, bits);
    var n, z := |bits|, Serial(0, bits);
    XorCommutes(StepN(c, n), z);
    XorCommutes(StepN(d, n), z);
    XorCancels(z, StepN(c, n), StepN(d, n));
    StepNInjective(c, d, n);
  }

  lemma {:induction false} RoomTwo(a: bv32, b: bv32, k: nat)
    requires Room(a, k) && Room(b, k)
    ensures Room(a | b, k)
    decreases k
  {
    if k > 0 {
      OrTop(a, b);
      RoomTwo(a << 1, b << 1, k - 1);
    }
  }

  lemma OrTop(a: bv32, b: bv32)
    ensures a & TOP == 0 && b & TOP == 0 ==> (a | b) & TOP == 0
    ensures (a | b) << 1 == (a << 1) | (b << 1)
  {
  }

  lemma {:induction false} RoomLess(a: bv32, k: nat, j: nat)
    requires Room(a, k) && j <= k
    ensures Room(a, j)
    decreases j
  {
    if j > 0 {
      RoomLess(a << 1, k - 1, j - 1);
    }
  }

  lemma {:induction false} RoomZero(k: nat)
    ensures Room(0, k)
    decreases k
  {
    if k > 0 {
      RoomZero(k - 1);
    }
  }

  lemma RoomNibble(c: bv32, k: nat)
    requires k >= 4 && c & 0xf000_0000 == 0
    ensures Room(c << 4, k - 4) ==> Room(c, k)
  {
    hide Room;
    TopNibbleClear(c);
    FourUp(c, k);
    NibbleShift(c);
  }

  lemma NibbleShift(c: bv32)
    ensures (((c << 1) << 1) << 1) << 1 == c << 4
  {
  }

  lemma RoomOne()
    ensures Room(1, 31)
  {
    assert Room(0x1000_0000, 3) by {
      assert Room(0x4000_0000, 1);
      assert Room(0x2000_0000, 2);
    }
    hide Room;
    RoomNibble(0x0100_0000, 7);
    RoomNibble(0x0010_0000, 11);
    RoomNibble(0x0001_0000, 15);
    RoomNibble(0x0000_1000, 19);
    RoomNibble(0x0000_0100, 23);
    RoomNibble(0x0000_0010, 27);
    RoomNibble(0x0000_0001, 31);
  }

  lemma RoomBit(b: bool, k: nat)
    requires k <= 31
    ensures Room(Bit(b), k)
  {
    if b {
      RoomOne();
      RoomLess(1, 31, k);
    } else {
      RoomZero(k);
    }
  }

  lemma RemainderLast(x: seq<bool>)
    requires x != []
    ensures Remainder(0, x) == BringDown(Remainder(0, x[..|x| - 1]), x[|x| - 1])
  {
    hide BringDown;
    var b := x[|x| - 1];
    assert x == x[..|x| - 1] + [b];
    RemainderAppend(0, x[..|x| - 1], [b]);
    assert [b][1..] == [];
  }

  lemma RoomPushed(r: bv32, b: bool, k: nat)
    requires Room(r, k + 1) && k <= 31
    ensures Room(r, 1) && BringDown(r, b) == Pushed(r, b) && Room(Pushed(r, b), k)
  {
    hide BringDown, Bit;
    assert r & TOP == 0 && Room(r << 1, k) && Room(r << 1, 0);
    BringDownCases(r, b);
    RoomBit(b, k);
    RoomTwo(r << 1, Bit(b), k);
  }

  // Up to 32 coefficients are their own remainder: nothing is ever subtracted.
  lemma {:induction false} ShortRemainder(x: seq<bool>)
    requires |x| <= 32
    ensures Room(Remainder(0, x), 32 - |x|)
    ensures x != [] ==> var r := Remainder(0, x[..|x| - 1]);
                        Room(r, 1) && Remainder(0, x) == Pushed(r, x[|x| - 1])
    decreases |x|
  {
    hide BringDown, Pushed, Remainder, Room;
    if x == [] {
      EmptyRemainder();
      RoomZero(32);
    } else {
      ShortRemainder(x[..|x| - 1]);
      RemainderLast(x);
      RoomPushed(Remainder(0, x[..|x| - 1]), x[|x| - 1], 32 - |x|);
    }
  }

  lemma EmptyRemainder()
    ensures Remainder(0, []) == 0
  {
  }

  lemma LastBitDecides(r: bv32, s: bv32, a: bool, b: bool)
    requires Room(r, 1) && Room(s, 1) && Pushed(r, a) == Pushed(s, b)
    ensures r == s && a == b
  {
  }

  lemma {:induction false} ShortInjective(x: seq<bool>, y: seq<bool>)
    requires |x| == |y| <= 32 && Remainder(0, x) == Remainder(0, y)
    ensures x == y
    decreases |x|
  {
    hide BringDown, Pushed, Remainder, Room;
    if x != [] {
      var n := |x| - 1;
      ShortRemainder(x);
      ShortRemainder(y);
      LastBitDecides(Remainder(0, x[..n]), Remainder(0, y[..n]), x[n], y[n]);
      ShortInjective(x[..n], y[..n]);
      assert x == x[..n] + [x[n]] && y == y[..n] + [y[n]];
    }
  }

  // Two different windows of at most 32 bits, between the same bits before and after, are told apart.
  lemma SerialBurst(c: bv32, before: seq<bool>, x: seq<bool>, y: seq<bool>, after: seq<bool>)
    requires |x| == |y| <= 32 && Serial(c, before + x + after) == Serial(c, before + y + after)
    ensures x == y
  {
    hide Serial, Remainder, Step, StepN, Xor;
    var d := Serial(c, before);
    SerialAppend(c, before, x);
    SerialAppend(c, before, y);
    SerialAppend(c, before + x, after);
    SerialAppend(c, before + y, after);
    SerialInjective(Serial(d, x), Serial(d, y), after);
    SerialSplit(d, x);
    SerialSplit(d, y);
    XorCancels(StepN(d, |x|), Serial(0, x), Serial(0, y));
    SerialFromZero(x);
    SerialFromZero(y);
    StepNInjective(Remainder(0, x), Remainder(0, y), 32);
    ShortInjective(x, y);
  }

  lemma CrcInjectiveInBits(a: seq<bv8>, b: seq<bv8>)
    requires Crc(a) == Crc(b)
    ensures Serial(Complement(0), MessageBits(a)) == Serial(Complement(0), MessageBits(b))
  {
    hide Fold, Serial, MessageBits, Complement;
    FoldIsSerial(Complement(0), a);
    FoldIsSerial(Complement(0), b);
    ComplementTwice(Fold(Complement(0), a));
    ComplementTwice(Fold(Complement(0), b));
  }

  lemma ByteBitsInjective(a: bv8, b: bv8)
    requires ByteBits(a) == ByteBits(b)
    ensures a == b
  {
    hide Step, StepN, Xor, Serial, WordBits;
    var v, w := (a as bv32) << 24, (b as bv32) << 24;
    ByteGone(a);
    ByteGone(b);
    FeedWord(0, v, 8);
    FeedWord(0, w, 8);
    XorZero(v);
    XorZero(w);
    StepNInjective(v, w, 8);
    TopBytes(a, b);
  }

  lemma TopBytes(a: bv8, b: bv8)
    ensures (a as bv32) << 24 == (b as bv32) << 24 ==> a == b
  {
  }

  lemma {:induction false} MessageBitsInjective(a: seq<bv8>, b: seq<bv8>)
    requires |a| == |b| && MessageBits(a) == MessageBits(b)
    ensures a == b
    decreases |a|
  {
    hide ByteBits;
    if a != [] {
      assert ByteBits(a[0]) == MessageBits(a)[..8] && ByteBits(b[0]) == MessageBits(b)[..8];
      assert MessageBits(a[1..]) == MessageBits(a)[8..] && MessageBits(b[1..]) == MessageBits(b)[8..];
      ByteBitsInjective(a[0], b[0]);
      MessageBitsInjective(a[1..], b[1..]);
      assert a == [a[0]] + a[1..] && b == [b[0]] + b[1..];
    }
  }

  lemma Window(x: seq<bool>, y: seq<bool>, lo: nat, hi: nat)
    requires |x| == |y| && lo <= hi <= |x| && (forall i :: 0 <= i < |x| && (i < lo || i >= hi) ==> x[i] == y[i])
    ensures x == x[..lo] + x[lo..hi] + x[hi..] && y == x[..lo] + y[lo..hi] + x[hi..]
  {
  }

  // Two messages of one length whose bits differ only within 32 consecutive positions have
  // different CRCs, at any length and position.
  lemma BurstDetected(a: seq<bv8>, b: seq<bv8>, k: nat)
    requires |a| == |b| && a != b
    requires forall i :: 0 <= i < 8 * |a| && (i < k || i >= k + 32) ==> MessageBits(a)[i] == MessageBits(b)[i]
    ensures Crc(a) != Crc(b)
  {
    hide Serial, MessageBits, Crc, Complement;
    if Crc(a) == Crc(b) {
      var x, y, n := MessageBits(a), MessageBits(b), 8 * |a|;
      var lo := if k < n then k else n;
      var hi := if k + 32 < n then k + 32 else n;
      CrcInjectiveInBits(a, b);
      Window(x, y, lo, hi);
      SerialBurst(Complement(0), x[..lo], x[lo..hi], y[lo..hi], x[hi..]);
      MessageBitsInjective(a, b);
    }
  }

  lemma {:induction false} MessageBitsAppend(a: seq<bv8>, b: seq<bv8>)
    ensures MessageBits(a + b) == MessageBits(a) + MessageBits(b)
    decreases |a|
  {
    hide ByteBits;
    if a == [] {
      assert a + b == b;
    } else {
      assert (a + b)[1..] == a[1..] + b;
      MessageBitsAppend(a[1..], b);
    }
  }

  // In particular, messages that differ only inside four consecutive bytes.
  lemma FourBytesDetected(before: seq<bv8>, x: seq<bv8>, y: seq<bv8>, after: seq<bv8>)
    requires |x| == |y| <= 4 && x != y
    ensures Crc(before + x + after) != Crc(before + y + after)
  {
    hide Serial, MessageBits, Crc, Complement;
    if Crc(before + x + after) == Crc(before + y + after) {
      CrcInjectiveInBits(before + x + after, before + y + after);
      MessageBitsAppend(before + x, after);
      MessageBitsAppend(before + y, after);
      MessageBitsAppend(before, x);
      MessageBitsAppend(before, y);
      SerialBurst(Complement(0), MessageBits(before), MessageBits(x), MessageBits(y), MessageBits(after));
      MessageBitsInjective(x, y);
    }
  }

  // ---- The table and the function that builds it on first use ----

  class Table {
    const entries: array<bv32>
    ghost var builds: nat

    // The table is all zeros until it has been built, once.
    ghost predicate Valid()
      reads this, entries
    {
      && entries.Length == 256 && builds <= 1
      && (builds == 0 ==> forall i :: 0 <= i < 256 ==> entries[i] == 0)
      && (builds == 1 ==> Complete())
    }

    ghost predicate Complete()
      requires entries.Length == 256
      reads entries
    {
      forall i :: 0 <= i < 256 ==> entries[i] == Entry(i as bv32)
    }

    constructor ()
      ensures Valid() && builds == 0 && fresh(entries)
    {
      entries := new bv32[256](_ => 0);
      builds := 0;
    }

    // One entry of the table.
    method BuildEntry(i: nat) returns (c: bv32)
      requires i < 256
      ensures c == Entry(i as bv32)
    {
      hide Step;
      c := (i as bv32) << 24;
      var j := 8;
      while j > 0
        invariant 0 <= j <= 8 && StepN(c, j) == StepN((i as bv32) << 24, 8)
      {
        c := Step(c);
        j := j - 1;
      }
    }

    method Build()
      requires entries.Length == 256 && builds == 0
      modifies this, entries
      ensures Complete() && builds == 1
    {
      hide Entry;
      for i := 0 to 256
        invariant builds == 0
        invariant forall k :: 0 <= k < i ==> entries[k] == Entry(k as bv32)
      {
        entries[i] := BuildEntry(i);
      }
      builds := builds + 1;
    }

    lemma Built()
      requires Valid()
      ensures builds == 1 <==> entries[1] != 0
    {
    }

    // One turn of the message loop: the index is a byte, so it is within the table.
    method Look(crc: bv32, b: bv8) returns (next: bv32)
      requires entries.Length == 256 && Complete()
      ensures next == ByteStep(crc, b)
    {
      hide Entry;
      var i := (crc >> 24) ^ (b as bv32);
      IndexIsByte(crc, b);
      Index(i);
      next := (crc << 8) ^ entries[i as int];
    }

    // The length is a signed number in the source; none of a negative length is processed.
    method Crc32Extend(seed: bv32, buf: seq<bv8>, len: int) returns (crc: bv32)
      requires Valid() && len <= |buf|
      modifies this, entries
      ensures Valid() && builds == 1
      ensures old(builds) == 1 ==> entries[..] == old(entries[..])
      ensures crc == Extend(seed, if len > 0 then buf[..len] else [])
    {
      hide Fold, Entry, ByteStep;
      Built();
      if entries[1] == 0 {
        Build();
      }
      ghost var message := if len > 0 then buf[..len] else [];
      crc := Complement(seed);
      var p, left := 0, len;
      assert message[0..] == message;
      while left > 0
        invariant 0 <= p <= |message| && left == len - p && Valid() && builds == 1
        invariant old(builds) == 1 ==> entries[..] == old(entries[..])
        invariant Fold(crc, message[p..]) == Fold(Complement(seed), message)
      {
        FoldNext(crc, message, p);
        crc := Look(crc, buf[p]);
        p, left := p + 1, left - 1;
      }
      FoldEmpty(crc);
      assert message[p..] == [];
      crc := Complement(crc);
    }
  }

  lemma FoldNext(crc: bv32, message: seq<bv8>, p: nat)
    requires p < |message|
    ensures Fold(crc, message[p..]) == Fold(ByteStep(crc, message[p]), message[p + 1..])
  {
  }

  lemma FoldEmpty(crc: bv32)
    ensures Fold(crc, []) == crc
  {
  }

  lemma IndexIsByte(crc: bv32, b: bv8)
    ensures (crc >> 24) ^ (b as bv32) < 256
  {
  }

  lemma Index(i: bv32)
    requires i < 256
    ensures (i as int) < 256 && (i as int) as bv32 == i
  {
  }

}
