// The two table-driven CRCs of src/hash.c and the bit-serial registers they are meant to equal.

// Bit-serial definitions: a 32-bit shift register clocked once per message bit.
module CrcSpec {
  // The Castagnoli generator of section 12.1 of RFC 3720 (x^32 left implicit), highest power first.
  const CASTAGNOLI: bv32 := 0x1EDC6F41
  // The generator of the CRC-32 of section 8 of RFC 1952, highest power first.
  const ETHERNET: bv32 := 0x04C11DB7
  const ALL_ONES: bv32 := 0xFFFF_FFFF

  function Bit(b: bool): bv32 {
    if b then 1 else 0
  }

  // The bits of a byte in transmission order, least significant first.
  function BitsOf(b: bv8): (bits: seq<bool>)
    ensures |bits| == 8
  {
    [b & 1 != 0, b & 2 != 0, b & 4 != 0, b & 8 != 0, b & 16 != 0, b & 32 != 0, b & 64 != 0, b & 128 != 0]
  }

  function MessageBits(data: seq<bv8>): (bits: seq<bool>)
    ensures |bits| == 8 * |data|
  {
    if data == [] then [] else BitsOf(data[0]) + MessageBits(data[1..])
  }

  // One clock of the division register: the coefficient leaving at the top selects the generator.
  function Clock(generator: bv32, reg: bv32, bit: bool): bv32 {
    if (reg & 0x8000_0000 != 0) != bit then (reg << 1) ^ generator else reg << 1
  }

  function Divide(generator: bv32, reg: bv32, bits: seq<bool>): bv32
    decreases bits
  {
    if bits == [] then reg else Divide(generator, Clock(generator, reg, bits[0]), bits[1..])
  }

  // The bits of x in the opposite order.
  function Mirror(x: bv32): bv32 {
    var a := ((x >> 1) & 0x5555_5555) | ((x & 0x5555_5555) << 1);
    var b := ((a >> 2) & 0x3333_3333) | ((a & 0x3333_3333) << 2);
    var c := ((b >> 4) & 0x0F0F_0F0F) | ((b & 0x0F0F_0F0F) << 4);
    var d := ((c >> 8) & 0x00FF_00FF) | ((c & 0x00FF_00FF) << 8);
    (d >> 16) | (d << 16)
  }

  // Register preset to ones, remainder mirrored and complemented.
  function BitSerialCrc(generator: bv32, data: seq<bv8>): bv32 {
    Mirror(Divide(generator, ALL_ONES, MessageBits(data))) ^ ALL_ONES
  }
}

// The mirrored register and its algebra: linearity, bijectivity, and steps taken a byte at a time.
module CrcAlgebra {
  import opened CrcSpec

  // The Castagnoli generator mirrored.
  const POLY: bv32 := 0x82F6_3B78

  // One right shift of the mirrored register; poly is the mirrored generator.
  function BitStep(poly: bv32, c: bv32): bv32 {
    if c & 1 != 0 then (c >> 1) ^ poly else c >> 1
  }

  function Steps(poly: bv32, c: bv32, n: nat): bv32
    decreases n
  {
    if n == 0 then c else Steps(poly, BitStep(poly, c), n - 1)
  }

  // Eight steps, written out.
  function Eight(poly: bv32, c: bv32): bv32 {
    var d := BitStep(poly, BitStep(poly, BitStep(poly, BitStep(poly, c))));
    BitStep(poly, BitStep(poly, BitStep(poly, BitStep(poly, d))))
  }

  lemma EightIsSteps(poly: bv32, c: bv32)
    ensures Eight(poly, c) == Steps(poly, c, 8)
  {
    hide BitStep;
    var d := BitStep(poly, BitStep(poly, BitStep(poly, BitStep(poly, c))));
    assert Steps(poly, c, 8) == Steps(poly, BitStep(poly, BitStep(poly, c)), 6);
    assert Steps(poly, c, 8) == Steps(poly, d, 4);
    assert Steps(poly, d, 4) == Steps(poly, BitStep(poly, BitStep(poly, d)), 2);
  }

  // One message bit enters at the low end.
  function FeedBit(poly: bv32, c: bv32, bit: bool): bv32 {
    BitStep(poly, c ^ Bit(bit))
  }

  function Feed(poly: bv32, c: bv32, bits: seq<bool>): bv32
    decreases bits
  {
    if bits == [] then c else Feed(poly, FeedBit(poly, c, bits[0]), bits[1..])
  }

  // A byte folded in at once: the state after its eight bits.
  function FeedByte(poly: bv32, c: bv32, b: bv8): bv32 {
    Steps(poly, c ^ (b as bv32), 8)
  }

  function FeedBytes(poly: bv32, c: bv32, data: seq<bv8>): bv32
    decreases data
  {
    if data == [] then c else FeedBytes(poly, FeedByte(poly, c, data[0]), data[1..])
  }

  // The sum over GF(2). A relation rather than a term, so that the lemmas below compare
  // whole registers and only the leaf lemmas look at bits.
  ghost predicate Sum(s: bv32, x: bv32, y: bv32) {
    s == x ^ y
  }

  lemma SumCommutes(s: bv32, x: bv32, y: bv32)
    ensures Sum(s, x, y) <==> Sum(s, y, x)
  {
  }

  lemma OddOdd(poly: bv32, s: bv32, x: bv32, y: bv32)
    requires Sum(s, x, y) && x & 1 != 0 && y & 1 != 0
    ensures s & 1 == 0 && Sum(s >> 1, (x >> 1) ^ poly, (y >> 1) ^ poly)
  {
  }

  lemma OddEven(poly: bv32, s: bv32, x: bv32, y: bv32)
    requires Sum(s, x, y) && x & 1 != 0 && y & 1 == 0
    ensures s & 1 != 0 && Sum((s >> 1) ^ poly, (x >> 1) ^ poly, y >> 1)
  {
  }

  lemma EvenEven(s: bv32, x: bv32, y: bv32)
    requires Sum(s, x, y) && x & 1 == 0 && y & 1 == 0
    ensures s & 1 == 0 && Sum(s >> 1, x >> 1, y >> 1)
  {
  }

  lemma StepLinear(poly: bv32, s: bv32, x: bv32, y: bv32)
    requires Sum(s, x, y)
    ensures Sum(BitStep(poly, s), BitStep(poly, x), BitStep(poly, y))
  {
    hide Sum;
    if x & 1 != 0 && y & 1 != 0 {
      OddOdd(poly, s, x, y);
    } else if x & 1 != 0 {
      OddEven(poly, s, x, y);
    } else if y & 1 != 0 {
      SumCommutes(s, x, y);
      OddEven(poly, s, y, x);
      SumCommutes(BitStep(poly, s), BitStep(poly, x), BitStep(poly, y));
    } else {
      EvenEven(s, x, y);
    }
  }

  // Clocking is linear over GF(2).
  lemma {:induction false} StepsLinear(poly: bv32, s: bv32, x: bv32, y: bv32, n: nat)
    requires Sum(s, x, y)
    ensures Sum(Steps(poly, s, n), Steps(poly, x, n), Steps(poly, y, n))
    decreases n
  {
    hide Sum;
    hide BitStep;
    if n == 0 {
    } else {
      StepLinear(poly, s, x, y);
      StepsLinear(poly, BitStep(poly, s), BitStep(poly, x), BitStep(poly, y), n - 1);
    }
  }

  lemma {:induction false} StepsCompose(poly: bv32, c: bv32, m: nat, n: nat)
    ensures Steps(poly, c, m + n) == Steps(poly, Steps(poly, c, m), n)
    decreases m
  {
    hide BitStep;
    if m == 0 {
    } else {
      StepsCompose(poly, BitStep(poly, c), m - 1, n);
    }
  }

  // c is w shifted up once, nothing lost.
  ghost predicate Doubles(c: bv32, w: bv32) {
    w & 0x8000_0000 == 0 && c == w << 1
  }

  lemma StepHalves(poly: bv32, c: bv32, w: bv32)
    requires Doubles(c, w)
    ensures BitStep(poly, c) == w
  {
  }

  lemma {:induction false} StepsHalve(poly: bv32, ws: seq<bv32>)
    requires ws != [] && forall i :: 0 <= i < |ws| - 1 ==> Doubles(ws[i], ws[i + 1])
    ensures Steps(poly, ws[0], |ws| - 1) == ws[|ws| - 1]
    decreases |ws|
  {
    hide Doubles;
    hide BitStep;
    if |ws| == 1 {
    } else {
      StepHalves(poly, ws[0], ws[1]);
      StepsHalve(poly, ws[1..]);
    }
  }

  lemma ShiftChain(x: bv32)
    requires x & 0xFF00_0000 == 0
    ensures Doubles(x << 8, x << 7) && Doubles(x << 7, x << 6) && Doubles(x << 6, x << 5) && Doubles(x << 5, x << 4)
    ensures Doubles(x << 4, x << 3) && Doubles(x << 3, x << 2) && Doubles(x << 2, x << 1) && Doubles(x << 1, x)
  {
  }

  // A register whose low byte is clear just shifts down by a byte.
  lemma ShiftOut(poly: bv32, x: bv32)
    requires x & 0xFF00_0000 == 0
    ensures Steps(poly, x << 8, 8) == x
  {
    hide BitStep;
    hide Doubles;
    hide Steps;
    ShiftChain(x);
    StepsHalve(poly, [x << 8, x << 7, x << 6, x << 5, x << 4, x << 3, x << 2, x << 1, x]);
  }

  lemma SplitLow(c: bv32)
    ensures Sum(c, c & 0xFF, (c >> 8) << 8)
    ensures (c >> 8) & 0xFF00_0000 == 0
  {
  }

  // Eight steps need a table only for the low byte; the rest shifts down.
  lemma ByteStep(poly: bv32, c: bv32)
    ensures Sum(Steps(poly, c, 8), Steps(poly, c & 0xFF, 8), c >> 8)
  {
    hide Sum;
    hide BitStep;
    hide Steps;
    SplitLow(c);
    StepsLinear(poly, c, c & 0xFF, (c >> 8) << 8, 8);
    ShiftOut(poly, c >> 8);
  }

  // A different bit state leads to a different bit state: nothing is forgotten.
  lemma StepInjective(poly: bv32, x: bv32, y: bv32)
    requires poly & 0x8000_0000 != 0 && BitStep(poly, x) == BitStep(poly, y)
    ensures x == y
  {
  }

  lemma {:induction false} StepsInjective(poly: bv32, x: bv32, y: bv32, n: nat)
    requires poly & 0x8000_0000 != 0 && Steps(poly, x, n) == Steps(poly, y, n)
    ensures x == y
    decreases n
  {
    if n == 0 {
    } else {
      StepsInjective(poly, BitStep(poly, x), BitStep(poly, y), n - 1);
      StepInjective(poly, x, y);
    }
  }

  // r holds the bits, the first one lowest.
  ghost predicate Holds(r: bv32, bits: seq<bool>)
    decreases bits
  {
    if bits == [] then r == 0 else (bits[0] <==> r & 1 != 0) && Holds(r >> 1, bits[1..])
  }

  lemma AbsorbBit(poly: bv32, s: bv32, c: bv32, r: bv32, bit: bool)
    requires Sum(s, c, r) && (bit <==> r & 1 != 0)
    ensures Sum(s, c ^ Bit(bit), (r >> 1) << 1)
    ensures Doubles((r >> 1) << 1, r >> 1)
  {
  }

  lemma FeedBitSum(poly: bv32, s: bv32, c: bv32, r: bv32, bit: bool)
    requires Sum(s, c, r) && (bit <==> r & 1 != 0)
    ensures Sum(BitStep(poly, s), FeedBit(poly, c, bit), r >> 1)
  {
    hide Sum;
    hide BitStep;
    hide Doubles;
    AbsorbBit(poly, s, c, r, bit);
    StepLinear(poly, s, c ^ Bit(bit), (r >> 1) << 1);
    StepHalves(poly, (r >> 1) << 1, r >> 1);
  }

  // Up to 32 bits may be added to the register at once and then clocked through.
  lemma {:induction false} FeedAtOnce(poly: bv32, s: bv32, c: bv32, r: bv32, bits: seq<bool>)
    requires Sum(s, c, r) && Holds(r, bits)
    ensures Feed(poly, c, bits) == Steps(poly, s, |bits|)
    decreases bits
  {
    hide Sum;
    hide BitStep;
    hide FeedBit;
    if bits == [] {
      SumZero(s, c, r);
    } else {
      FeedBitSum(poly, s, c, r, bits[0]);
      FeedAtOnce(poly, BitStep(poly, s), FeedBit(poly, c, bits[0]), r >> 1, bits[1..]);
    }
  }

  lemma SumZero(s: bv32, c: bv32, r: bv32)
    requires r == 0
    ensures Sum(s, c, r) <==> s == c
  {
  }

  ghost predicate Sheds(r: bv32, bit: bool, r': bv32) {
    (bit <==> r & 1 != 0) && r' == r >> 1
  }

  lemma {:induction false} HoldsAll(rs: seq<bv32>, bits: seq<bool>)
    requires |rs| == |bits| + 1 && rs[|bits|] == 0
    requires forall i :: 0 <= i < |bits| ==> Sheds(rs[i], bits[i], rs[i + 1])
    ensures Holds(rs[0], bits)
    decreases bits
  {
    if bits == [] {
    } else {
      HoldsAll(rs[1..], bits[1..]);
      assert Sheds(rs[0], bits[0], rs[1]);
    }
  }

  lemma ByteSheds(b: bv8)
      returns (r1: bv32, r2: bv32, r3: bv32, r4: bv32, r5: bv32, r6: bv32, r7: bv32, r8: bv32)
    ensures var bits := BitsOf(b);
            && Sheds(b as bv32, bits[0], r1) && Sheds(r1, bits[1], r2) && Sheds(r2, bits[2], r3)
            && Sheds(r3, bits[3], r4) && Sheds(r4, bits[4], r5) && Sheds(r5, bits[5], r6)
            && Sheds(r6, bits[6], r7) && Sheds(r7, bits[7], r8) && r8 == 0
  {
    var r := b as bv32;
    r1, r2, r3, r4, r5, r6, r7, r8 := r >> 1, r >> 2, r >> 3, r >> 4, r >> 5, r >> 6, r >> 7, r >> 8;
  }

  lemma ByteHolds(b: bv8)
    ensures Holds(b as bv32, BitsOf(b))
  {
    hide Sheds;
    hide Holds;
    hide BitsOf;
    var bits := BitsOf(b);
    var r1, r2, r3, r4, r5, r6, r7, r8 := ByteSheds(b);
    var rs := [b as bv32, r1, r2, r3, r4, r5, r6, r7, r8];
    assert Sheds(rs[0], bits[0], rs[1]) && Sheds(rs[1], bits[1], rs[2]) && Sheds(rs[2], bits[2], rs[3]);
    assert Sheds(rs[3], bits[3], rs[4]) && Sheds(rs[4], bits[4], rs[5]) && Sheds(rs[5], bits[5], rs[6]);
    HoldsAll(rs, bits);
  }

  lemma FeedByteIsBits(poly: bv32, c: bv32, b: bv8)
    ensures Feed(poly, c, BitsOf(b)) == FeedByte(poly, c, b)
  {
    var w := b as bv32;
    ByteHolds(b);
    assert Sum(c ^ w, c, w);
    FeedAtOnce(poly, c ^ w, c, w, BitsOf(b));
  }

  lemma {:induction false} FeedConcat(poly: bv32, c: bv32, u: seq<bool>, v: seq<bool>)
    ensures Feed(poly, c, u + v) == Feed(poly, Feed(poly, c, u), v)
    decreases u
  {
    hide FeedBit;
    if u == [] {
      assert u + v == v;
    } else {
      assert (u + v)[1..] == u[1..] + v;
      FeedConcat(poly, FeedBit(poly, c, u[0]), u[1..], v);
    }
  }

  // Folding bytes is feeding their bits.
  lemma {:induction false} FeedBytesIsBits(poly: bv32, c: bv32, data: seq<bv8>)
    ensures FeedBytes(poly, c, data) == Feed(poly, c, MessageBits(data))
    decreases data
  {
    hide FeedBit;
    hide FeedByte;
    hide BitsOf;
    if data == [] {
    } else {
      FeedByteIsBits(poly, c, data[0]);
      FeedBytesIsBits(poly, FeedByte(poly, c, data[0]), data[1..]);
      FeedConcat(poly, c, BitsOf(data[0]), MessageBits(data[1..]));
    }
  }

  lemma {:induction false} FeedBytesConcat(poly: bv32, c: bv32, a: seq<bv8>, b: seq<bv8>)
    ensures FeedBytes(poly, c, a + b) == FeedBytes(poly, FeedBytes(poly, c, a), b)
    decreases a
  {
    hide FeedByte;
    if a == [] {
      assert a + b == b;
    } else {
      assert (a + b)[1..] == a[1..] + b;
      FeedBytesConcat(poly, FeedByte(poly, c, a[0]), a[1..], b);
    }
  }

  lemma FeedSingle(poly: bv32, c: bv32, b: bv8)
    ensures FeedBytes(poly, c, [b]) == FeedByte(poly, c, b)
  {
    hide FeedByte;
    assert [b][1..] == [];
  }

  // Folding up to i and then on to j.
  lemma FeedOn(poly: bv32, c: bv32, data: seq<bv8>, i: nat, j: nat)
    requires i <= j <= |data|
    ensures FeedBytes(poly, c, data[..j]) == FeedBytes(poly, FeedBytes(poly, c, data[..i]), data[i..j])
  {
    hide FeedByte;
    assert data[..i] + data[i..j] == data[..j];
    FeedBytesConcat(poly, c, data[..i], data[i..j]);
  }

  // A zero and a one entering a register whose low bit is set or clear.
  lemma ZeroOntoOne(poly: bv32, c: bv32)
    requires c & 1 != 0
    ensures FeedBit(poly, c, false) == (c >> 1) ^ poly
  {
  }

  lemma OneOntoZero(poly: bv32, c: bv32)
    requires c & 1 == 0
    ensures FeedBit(poly, c, true) == (c >> 1) ^ poly
  {
  }

  lemma ZeroOntoZero(poly: bv32, c: bv32)
    requires c & 1 == 0
    ensures FeedBit(poly, c, false) == c >> 1
  {
  }

  lemma OneOntoOne(poly: bv32, c: bv32)
    requires c & 1 != 0
    ensures FeedBit(poly, c, true) == c >> 1
  {
  }

  lemma FeedBitOdd(poly: bv32, c: bv32, bit: bool)
    requires (c & 1 != 0) != bit
    ensures FeedBit(poly, c, bit) == (c >> 1) ^ poly
  {
    hide *;
    if bit {
      OneOntoZero(poly, c);
    } else {
      ZeroOntoOne(poly, c);
    }
  }

  lemma FeedBitEven(poly: bv32, c: bv32, bit: bool)
    requires (c & 1 != 0) == bit
    ensures FeedBit(poly, c, bit) == c >> 1
  {
    hide *;
    if bit {
      OneOntoOne(poly, c);
    } else {
      ZeroOntoZero(poly, c);
    }
  }

  lemma MirrorTop(reg: bv32)
    ensures reg & 0x8000_0000 != 0 <==> Mirror(reg) & 1 != 0
  {
  }

  lemma MirrorShift(reg: bv32)
    ensures Mirror(reg << 1) == Mirror(reg) >> 1
  {
  }

  lemma MirrorFeedback(generator: bv32, reg: bv32)
    ensures Mirror((reg << 1) ^ generator) == (Mirror(reg) >> 1) ^ Mirror(generator)
  {
  }

  lemma ClockOdd(generator: bv32, reg: bv32, bit: bool) returns (next: bv32)
    requires (reg & 0x8000_0000 != 0) != bit
    ensures next == Clock(generator, reg, bit) && Mirror(next) == (Mirror(reg) >> 1) ^ Mirror(generator)
  {
    hide Mirror;
    MirrorFeedback(generator, reg);
    next := (reg << 1) ^ generator;
  }

  lemma ClockEven(generator: bv32, reg: bv32, bit: bool)
    requires (reg & 0x8000_0000 != 0) == bit
    ensures Mirror(Clock(generator, reg, bit)) == Mirror(reg) >> 1
  {
    hide Mirror;
    MirrorShift(reg);
  }

  // The register of RFC 3720 clocks exactly as its mirror image does.
  lemma MirrorClock(generator: bv32, reg: bv32, bit: bool)
    ensures Mirror(Clock(generator, reg, bit)) == FeedBit(Mirror(generator), Mirror(reg), bit)
  {
    hide Mirror;
    hide FeedBit;
    hide Clock;
    MirrorTop(reg);
    if (reg & 0x8000_0000 != 0) != bit {
      var next := ClockOdd(generator, reg, bit);
      FeedBitOdd(Mirror(generator), Mirror(reg), bit);
    } else {
      ClockEven(generator, reg, bit);
      FeedBitEven(Mirror(generator), Mirror(reg), bit);
    }
  }

  lemma {:induction false} MirrorDivide(generator: bv32, reg: bv32, bits: seq<bool>)
    ensures Mirror(Divide(generator, reg, bits)) == Feed(Mirror(generator), Mirror(reg), bits)
    decreases bits
  {
    hide Mirror;
    hide Clock;
    hide FeedBit;
    if bits == [] {
    } else {
      MirrorClock(generator, reg, bits[0]);
      MirrorDivide(generator, Clock(generator, reg, bits[0]), bits[1..]);
    }
  }

  lemma MirrorConstants()
    ensures Mirror(CASTAGNOLI) == 0x82F6_3B78
    ensures Mirror(ETHERNET) == 0xEDB8_8320
    ensures Mirror(ALL_ONES) == ALL_ONES
  {
  }

  // Any byte-wise fold of the mirrored register computes the bit-serial CRC.
  lemma FoldIsBitSerial(generator: bv32, poly: bv32, data: seq<bv8>)
    requires poly == Mirror(generator)
    ensures FeedBytes(poly, ALL_ONES, data) ^ ALL_ONES == BitSerialCrc(generator, data)
  {
    hide Mirror;
    MirrorConstants();
    MirrorDivide(generator, ALL_ONES, MessageBits(data));
    FeedBytesIsBits(poly, ALL_ONES, data);
  }
}
