// crc32c_sw of src/hash.c: tables built in place, bytes up to alignment, eight bytes at a time, tail.

// What a whole run of bytes does to the register, and how it splits into one table look-up per byte.
module CrcSlicing {
  import opened CrcSpec
  import opened CrcAlgebra

  lemma EnterByte(s: bv32, x: bv32, y: bv32, b: bv8)
    requires Sum(s, x, y)
    ensures Sum(s ^ (b as bv32), x, y ^ (b as bv32))
  {
  }

  lemma FeedByteLinear(poly: bv32, s: bv32, x: bv32, y: bv32, b: bv8)
    requires Sum(s, x, y)
    ensures Sum(FeedByte(poly, s, b), Steps(poly, x, 8), FeedByte(poly, y, b))
  {
    hide Sum;
    hide BitStep;
    hide Steps;
    EnterByte(s, x, y, b);
    StepsLinear(poly, s ^ (b as bv32), x, y ^ (b as bv32), 8);
  }

  // A change of the register before some bytes shows after them as that change clocked on alone.
  lemma {:induction false} FeedBytesLinear(poly: bv32, s: bv32, x: bv32, y: bv32, data: seq<bv8>)
    requires Sum(s, x, y)
    ensures Sum(FeedBytes(poly, s, data), Steps(poly, x, 8 * |data|), FeedBytes(poly, y, data))
    decreases data
  {
    hide Sum;
    hide BitStep;
    hide FeedByte;
    if data == [] {
    } else {
      FeedByteLinear(poly, s, x, y, data[0]);
      FeedBytesLinear(poly, FeedByte(poly, s, data[0]), Steps(poly, x, 8), FeedByte(poly, y, data[0]), data[1..]);
      StepsCompose(poly, x, 8, 8 * |data[1..]|);
    }
  }

  // The byte of the register that meets message byte b.
  function Lane(c: bv32, b: bv8): bv8 {
    ((c ^ (b as bv32)) & 0xFF) as bv8
  }

  function Shift8(c: bv32): bv32 {
    c >> 8
  }

  function Add(x: bv32, y: bv32): bv32 {
    x ^ y
  }

  // Each byte's own contribution to the final register, summed.
  function Lanes(poly: bv32, c: bv32, data: seq<bv8>): bv32
    decreases data
  {
    if data == [] then c
    else Add(Steps(poly, Lane(c, data[0]) as bv32, 8 * |data|), Lanes(poly, Shift8(c), data[1..]))
  }

  // The register once the byte has met its low end: its lane below, the rest above.
  function Enter(c: bv32, b: bv8): bv32 {
    c ^ (b as bv32)
  }

  lemma LowIsLane(c: bv32, b: bv8)
    ensures Enter(c, b) & 0xFF == Lane(c, b) as bv32
  {
  }

  lemma HighIsShift(c: bv32, b: bv8)
    ensures Enter(c, b) >> 8 == Shift8(c)
  {
  }

  lemma FeedByteSteps(poly: bv32, c: bv32, b: bv8)
    ensures FeedByte(poly, c, b) == Steps(poly, Enter(c, b), 8)
  {
    hide Steps;
  }

  // One byte costs one look-up of its lane.
  lemma FeedByteLane(poly: bv32, c: bv32, b: bv8)
    ensures Sum(FeedByte(poly, c, b), Steps(poly, Lane(c, b) as bv32, 8), Shift8(c))
  {
    hide *;
    FeedByteSteps(poly, c, b);
    LowIsLane(c, b);
    HighIsShift(c, b);
    ByteStep(poly, Enter(c, b));
  }

  lemma SumElim(s: bv32, x: bv32, y: bv32)
    requires Sum(s, x, y)
    ensures s == Add(x, y)
  {
  }

  // Folding bytes one by one is adding up their lanes.
  lemma {:induction false} LanesIsFold(poly: bv32, c: bv32, data: seq<bv8>)
    ensures FeedBytes(poly, c, data) == Lanes(poly, c, data)
    decreases data
  {
    hide Sum;
    hide BitStep;
    hide FeedByte;
    hide Lane;
    hide Shift8;
    hide Add;
    if data == [] {
    } else {
      var lane, rest := Lane(c, data[0]) as bv32, data[1..];
      var first := FeedByte(poly, c, data[0]);
      FeedByteLane(poly, c, data[0]);
      FeedBytesLinear(poly, first, Steps(poly, lane, 8), Shift8(c), rest);
      StepsCompose(poly, lane, 8, 8 * |rest|);
      LanesIsFold(poly, Shift8(c), rest);
      SumElim(FeedBytes(poly, first, rest), Steps(poly, lane, 8 * |data|), FeedBytes(poly, Shift8(c), rest));
    }
  }
}

// The 64-bit accumulator and its eight simultaneous look-ups.
module CrcWord {
  import opened CrcSpec
  import opened CrcAlgebra
  import opened CrcSlicing

  // Entry n of table k: what byte n becomes once k more bytes have gone by.
  function Entry(k: nat, n: bv8): bv32 {
    Steps(POLY, n as bv32, 8 * (k + 1))
  }

  // Eight bytes as one little-endian word.
  function LoadLe64(d0: bv8, d1: bv8, d2: bv8, d3: bv8, d4: bv8, d5: bv8, d6: bv8, d7: bv8): bv64 {
    (d0 as bv64) | ((d1 as bv64) << 8) | ((d2 as bv64) << 16) | ((d3 as bv64) << 24)
    | ((d4 as bv64) << 32) | ((d5 as bv64) << 40) | ((d6 as bv64) << 48) | ((d7 as bv64) << 56)
  }

  // Byte k of the accumulator, lowest first.
  function ByteOf(acc: bv64, k: nat): bv8
    requires k < 8
  {
    match k
    case 0 => (acc & 0xFF) as bv8
    case 1 => ((acc >> 8) & 0xFF) as bv8
    case 2 => ((acc >> 16) & 0xFF) as bv8
    case 3 => ((acc >> 24) & 0xFF) as bv8
    case 4 => ((acc >> 32) & 0xFF) as bv8
    case 5 => ((acc >> 40) & 0xFF) as bv8
    case 6 => ((acc >> 48) & 0xFF) as bv8
    case _ => (acc >> 56) as bv8
  }

  // The register after k bytes have left it.
  function ShiftBytes(c: bv32, k: nat): bv32 {
    if k == 0 then c else Shift8(ShiftBytes(c, k - 1))
  }

  lemma ShiftBytesIs(c: bv32)
    ensures ShiftBytes(c, 0) == c && ShiftBytes(c, 1) == c >> 8 && ShiftBytes(c, 2) == c >> 16
    ensures ShiftBytes(c, 3) == c >> 24 && ShiftBytes(c, 4) == 0 && ShiftBytes(c, 5) == 0
    ensures ShiftBytes(c, 6) == 0 && ShiftBytes(c, 7) == 0 && ShiftBytes(c, 8) == 0
  {
  }

  // The word w is register c with the eight bytes of d added.
  ghost predicate Mixed(c: bv32, w: bv64, d: seq<bv8>) {
    |d| == 8 && w == (c as bv64) ^ LoadLe64(d[0], d[1], d[2], d[3], d[4], d[5], d[6], d[7])
  }

  lemma LowLanes(c: bv32, w: bv64, d: seq<bv8>)
    requires Mixed(c, w, d)
    ensures ByteOf(w, 0) == Lane(ShiftBytes(c, 0), d[0]) && ByteOf(w, 1) == Lane(ShiftBytes(c, 1), d[1])
    ensures ByteOf(w, 2) == Lane(ShiftBytes(c, 2), d[2]) && ByteOf(w, 3) == Lane(ShiftBytes(c, 3), d[3])
  {
    hide ShiftBytes;
    ShiftBytesIs(c);
  }

  lemma HighLanes(c: bv32, w: bv64, d: seq<bv8>)
    requires Mixed(c, w, d)
    ensures ByteOf(w, 4) == Lane(ShiftBytes(c, 4), d[4]) && ByteOf(w, 5) == Lane(ShiftBytes(c, 5), d[5])
    ensures ByteOf(w, 6) == Lane(ShiftBytes(c, 6), d[6]) && ByteOf(w, 7) == Lane(ShiftBytes(c, 7), d[7])
  {
    hide ShiftBytes;
    ShiftBytesIs(c);
  }

  // The entry that byte i of d calls for.
  function LaneEntry(c: bv32, d: seq<bv8>, i: nat): bv32
    requires i < |d|
  {
    Entry(|d| - i - 1, Lane(ShiftBytes(c, i), d[i]))
  }

  // The first k entries added up from the left.
  function Partial(c: bv32, d: seq<bv8>, k: nat): bv32
    requires 0 < k <= |d|
  {
    if k == 1 then LaneEntry(c, d, 0) else Add(Partial(c, d, k - 1), LaneEntry(c, d, k - 1))
  }

  lemma AddAssociates(x: bv32, y: bv32, z: bv32)
    ensures Add(x, Add(y, z)) == Add(Add(x, y), z) && Add(x, 0) == x
  {
  }

  lemma LanesFrom(c: bv32, d: seq<bv8>, i: nat)
    requires i < |d|
    ensures Lanes(POLY, ShiftBytes(c, i), d[i..])
         == Add(LaneEntry(c, d, i), Lanes(POLY, ShiftBytes(c, i + 1), d[i + 1..]))
  {
    hide Add;
    hide Steps;
    hide Lane;
    hide Shift8;
    assert d[i..][1..] == d[i + 1..];
  }

  lemma {:induction false} PartialThenLanes(c: bv32, d: seq<bv8>, k: nat)
    requires 0 < k <= |d|
    ensures FeedBytes(POLY, c, d) == Add(Partial(c, d, k), Lanes(POLY, ShiftBytes(c, k), d[k..]))
  {
    hide Add;
    hide Lanes;
    hide Shift8;
    hide LaneEntry;
    LanesFrom(c, d, k - 1);
    if k == 1 {
      LanesIsFold(POLY, c, d);
      assert d[0..] == d;
    } else {
      PartialThenLanes(c, d, k - 1);
      AddAssociates(Partial(c, d, k - 1), LaneEntry(c, d, k - 1), Lanes(POLY, ShiftBytes(c, k), d[k..]));
    }
  }

  lemma WordIsPartial(c: bv32, d: seq<bv8>)
    requires |d| == 8
    ensures FeedBytes(POLY, c, d) == Partial(c, d, 8)
  {
    hide Add;
    hide Partial;
    hide ShiftBytes;
    PartialThenLanes(c, d, 8);
    ShiftBytesIs(c);
    AddAssociates(Partial(c, d, 8), 0, 0);
    assert d[8..] == [];
  }

  lemma PartialStep(c: bv32, d: seq<bv8>, k: nat)
    requires 0 < k < |d|
    ensures Partial(c, d, k + 1) == Add(Partial(c, d, k), LaneEntry(c, d, k))
    ensures Partial(c, d, 1) == LaneEntry(c, d, 0)
  {
  }

  lemma WordIndex(c: bv32, w: bv64, d: seq<bv8>, k: nat)
    requires |d| == 8 && Mixed(c, w, d) && k < 8
    ensures LaneEntry(c, d, k) == Entry(7 - k, ByteOf(w, k))
  {
    hide Mixed;
    hide Lane;
    hide Entry;
    hide ShiftBytes;
    hide ByteOf;
    LowLanes(c, w, d);
    HighLanes(c, w, d);
  }

  // Eight look-ups on the mixed word fold eight bytes.
  lemma WordLookup(c: bv32, w: bv64, d: seq<bv8>)
    requires |d| == 8 && Mixed(c, w, d)
    ensures Add(Add(Add(Add(Add(Add(Add(Entry(7, ByteOf(w, 0)), Entry(6, ByteOf(w, 1))), Entry(5, ByteOf(w, 2))),
              Entry(4, ByteOf(w, 3))), Entry(3, ByteOf(w, 4))), Entry(2, ByteOf(w, 5))), Entry(1, ByteOf(w, 6))),
              Entry(0, ByteOf(w, 7)))
         == FeedBytes(POLY, c, d)
  {
    hide *;
    WordIsPartial(c, d);
    PartialStep(c, d, 7);
    PartialStep(c, d, 6);
    PartialStep(c, d, 5);
    PartialStep(c, d, 4);
    PartialStep(c, d, 3);
    PartialStep(c, d, 2);
    PartialStep(c, d, 1);
    WordIndex(c, w, d, 0);
    WordIndex(c, w, d, 1);
    WordIndex(c, w, d, 2);
    WordIndex(c, w, d, 3);
    WordIndex(c, w, d, 4);
    WordIndex(c, w, d, 5);
    WordIndex(c, w, d, 6);
    WordIndex(c, w, d, 7);
  }

  lemma ByteIndex(c: bv32, acc: bv64, b: bv8)
    requires acc == c as bv64
    ensures ((acc ^ (b as bv64)) & 0xFF) as bv8 == Lane(c, b)
    ensures acc >> 8 == Shift8(c) as bv64
  {
  }

  lemma Widen(s: bv32, x: bv32, y: bv32)
    requires Sum(s, x, y)
    ensures s as bv64 == (x as bv64) ^ (y as bv64)
  {
  }

  // One look-up on the accumulator folds one byte.
  lemma ByteLookup(c: bv32, acc: bv64, b: bv8)
    requires acc == c as bv64
    ensures (Entry(0, ((acc ^ (b as bv64)) & 0xFF) as bv8) as bv64) ^ (acc >> 8) == FeedByte(POLY, c, b) as bv64
  {
    hide Sum;
    hide Steps;
    hide Lane;
    hide Shift8;
    hide FeedByte;
    ByteIndex(c, acc, b);
    FeedByteLane(POLY, c, b);
    Widen(FeedByte(POLY, c, b), Entry(0, Lane(c, b)), Shift8(c));
  }
}

// The code itself: a table filled once, and the three loops that use it.
module Crc32cCode {
  import Bytes
  import opened CrcSpec
  import opened CrcAlgebra
  import opened CrcSlicing
  import opened CrcWord

  function LowByte(c: bv32): bv8 {
    (c & 0xFF) as bv8
  }

  lemma LowByteIs(c: bv32)
    ensures LowByte(c) as bv32 == c & 0xFF
  {
  }

  // The column of a byte's entries.
  function Index(b: bv8): int {
    b as int
  }

  lemma Unroll(c: bv32, n: nat)
    requires n > 0
    ensures Steps(POLY, c, n) == Steps(POLY, BitStep(POLY, c), n - 1)
    ensures Steps(POLY, BitStep(POLY, c), 0) == BitStep(POLY, c)
  {
  }

  // Table k + 1 is table 0 applied to table k.
  lemma EntryNext(k: nat, b: bv8)
    ensures Entry(k + 1, b) == Add(Entry(0, LowByte(Entry(k, b))), Shift8(Entry(k, b)))
  {
    hide Add;
    hide Sum;
    hide Steps;
    hide LowByte;
    hide BitStep;
    var c := Entry(k, b);
    StepsCompose(POLY, b as bv32, 8 * (k + 1), 8);
    ByteStep(POLY, c);
    LowByteIs(c);
    ShiftIs(c);
    SumElim(Entry(k + 1, b), Entry(0, LowByte(c)), Shift8(c));
  }

  lemma ShiftIs(c: bv32)
    ensures Shift8(c) == c >> 8
  {
  }

  // A table index names one byte.
  lemma IndexIs(n: nat, b: bv8)
    requires n < 256
    ensures Index(b) == n <==> b == Bytes.ToByte(n)
    ensures 0 <= Index(b) < 256
  {
    hide Bytes.ToByte;
    Bytes.ValueTrip(n);
    Bytes.ByteTrip(b);
    assert Index(b) == Bytes.Value(b);
  }

  class Crc32c {
    const table: array2<bv32>
    var init: bool

    constructor ()
      ensures Valid() && fresh(table) && !init
    {
      table := new bv32[8, 256]((_, _) => 0);
      init := false;
    }

    ghost predicate TablesReady()
      reads table
    {
      && table.Length0 == 8 && table.Length1 == 256
      && forall k, b: bv8 :: 0 <= k < 8 ==> 0 <= Index(b) < 256 && table[k, Index(b)] == Entry(k, b)
    }

    ghost predicate Valid()
      reads this, table
    {
      table.Length0 == 8 && table.Length1 == 256 && (init ==> TablesReady())
    }

    // Eight unrolled bit steps.
    static method FirstEntry(b: bv8) returns (crc: bv32)
      ensures crc == Entry(0, b)
    {
      hide BitStep;
      hide Steps;
      crc := b as bv32;
      Unroll(crc, 8);
      crc := BitStep(POLY, crc);
      Unroll(crc, 7);
      crc := BitStep(POLY, crc);
      Unroll(crc, 6);
      crc := BitStep(POLY, crc);
      Unroll(crc, 5);
      crc := BitStep(POLY, crc);
      Unroll(crc, 4);
      crc := BitStep(POLY, crc);
      Unroll(crc, 3);
      crc := BitStep(POLY, crc);
      Unroll(crc, 2);
      crc := BitStep(POLY, crc);
      Unroll(crc, 1);
      crc := BitStep(POLY, crc);
    }

    // crc32c_init_sw
    method InitSw()
      requires Valid()
      modifies table
      ensures TablesReady()
    {
      hide Entry;
      hide LowByte;
      hide Shift8;
      hide Add;
      forall b: bv8 ensures 0 <= Index(b) < 256 { IndexIs(0, b); }
      hide Index;
      hide Bytes.ToByte;
      for n := 0 to 256
        invariant forall b: bv8 :: Index(b) < n ==> table[0, Index(b)] == Entry(0, b)
      {
        var crc := FirstEntry(Bytes.ToByte(n));
        table[0, n] := crc;
        forall b: bv8 ensures Index(b) == n <==> b == Bytes.ToByte(n) { IndexIs(n, b); }
      }
      for n := 0 to 256
        invariant forall b: bv8 :: table[0, Index(b)] == Entry(0, b)
        invariant forall k, b: bv8 :: 0 <= k < 8 && Index(b) < n ==> table[k, Index(b)] == Entry(k, b)
      {
        InitColumn(n);
        forall b: bv8 ensures Index(b) == n <==> b == Bytes.ToByte(n) { IndexIs(n, b); }
      }
    }

    // Column n of all tables, each entry from the one before.
    method InitColumn(n: nat)
      requires table.Length0 == 8 && table.Length1 == 256 && n < 256
      requires forall b: bv8 :: 0 <= Index(b) < 256 && table[0, Index(b)] == Entry(0, b)
      modifies table
      ensures forall k :: 0 <= k < 8 ==> table[k, n] == Entry(k, Bytes.ToByte(n))
      ensures forall k, m :: 0 <= k < 8 && 0 <= m < 256 && (k == 0 || m != n) ==> table[k, m] == old(table[k, m])
    {
      hide Entry;
      hide LowByte;
      hide Shift8;
      hide Add;
      hide Index;
      hide Bytes.ToByte;
      IndexIs(n, Bytes.ToByte(n));
      assert Index(Bytes.ToByte(n)) == n;
      var crc := table[0, n];
      for k := 1 to 8
        invariant forall j, m :: 0 <= j < 8 && 0 <= m < 256 && (j == 0 || m != n) ==> table[j, m] == old(table[j, m])
        invariant crc == Entry(k - 1, Bytes.ToByte(n))
        invariant forall j :: 0 <= j < k ==> table[j, n] == Entry(j, Bytes.ToByte(n))
      {
        EntryNext(k - 1, Bytes.ToByte(n));
        crc := Add(table[0, Index(LowByte(crc))], Shift8(crc));
        table[k, n] := crc;
      }
    }

    // The body of the prologue and tail loops.
    method OneByte(acc: bv64, ghost reg: bv32, b: bv8) returns (acc': bv64, ghost reg': bv32)
      requires TablesReady() && Register(acc, reg)
      ensures Register(acc', FeedBytes(POLY, reg, [b])) && reg' == FeedBytes(POLY, reg, [b])
    {
      hide Entry;
      hide Index;
      hide FeedByte;
      hide FeedBytes;
      FeedSingle(POLY, reg, b);
      var i := ((acc ^ (b as bv64)) & 0xFF) as bv8;
      assert table[0, Index(i)] == Entry(0, i);
      acc' := (table[0, Index(i)] as bv64) ^ (acc >> 8);
      reg' := FeedByte(POLY, reg, b);
      ByteLookup(reg, acc, b);
    }

    // The body of the word loop.
    method EightBytes(acc: bv64, ghost reg: bv32, d: seq<bv8>) returns (acc': bv64, ghost reg': bv32)
      requires TablesReady() && Register(acc, reg) && |d| == 8
      ensures Register(acc', FeedBytes(POLY, reg, d)) && reg' == FeedBytes(POLY, reg, d)
    {
      var w := acc ^ LoadLe64(d[0], d[1], d[2], d[3], d[4], d[5], d[6], d[7]);
      Mix(acc, reg, w, d);
      hide Entry;
      hide Index;
      hide ByteOf;
      hide LoadLe64;
      hide Mixed;
      hide Add;
      hide FeedBytes;
      hide Register;
      WordLookup(reg, w, d);
      var sum := Add(Add(Add(Add(Add(Add(Add(table[7, Index(ByteOf(w, 0))], table[6, Index(ByteOf(w, 1))]),
                   table[5, Index(ByteOf(w, 2))]), table[4, Index(ByteOf(w, 3))]), table[3, Index(ByteOf(w, 4))]),
                   table[2, Index(ByteOf(w, 5))]), table[1, Index(ByteOf(w, 6))]), table[0, Index(ByteOf(w, 7))]);
      reg' := sum;
      acc' := sum as bv64;
      RegisterIs(sum);
    }

    // crc32c_sw: buf starts at the given address, so its first bytes up to a multiple of 8 go singly.
    method Sw(crci: bv32, buf: seq<bv8>, address: nat) returns (crc: bv32)
      requires TablesReady()
      ensures crc == Resume(crci, buf)
    {
      hide Flip;
      hide FeedBytes;
      hide Register;
      var acc := Flip(crci) as bv64;
      RegisterIs(Flip(crci));
      ghost var start, reg := Flip(crci), Flip(crci);
      var next := 0;
      FeedNone(start, buf);
      while next < |buf| && (address + next) % 8 != 0
        invariant 0 <= next <= |buf|
        invariant Register(acc, reg) && reg == FeedBytes(POLY, start, buf[..next])
        decreases |buf| - next
      {
        acc, reg := OneByte(acc, reg, buf[next]);
        FeedOn(POLY, start, buf, next, next + 1);
        assert buf[next..next + 1] == [buf[next]];
        next := next + 1;
      }
      while |buf| - next >= 8
        invariant 0 <= next <= |buf|
        invariant Register(acc, reg) && reg == FeedBytes(POLY, start, buf[..next])
      {
        acc, reg := EightBytes(acc, reg, buf[next..next + 8]);
        FeedOn(POLY, start, buf, next, next + 8);
        next := next + 8;
      }
      while next < |buf|
        invariant 0 <= next <= |buf|
        invariant Register(acc, reg) && reg == FeedBytes(POLY, start, buf[..next])
      {
        acc, reg := OneByte(acc, reg, buf[next]);
        FeedOn(POLY, start, buf, next, next + 1);
        assert buf[next..next + 1] == [buf[next]];
        next := next + 1;
      }
      assert buf[..next] == buf;
      RegisterLow(acc, reg);
      crc := Flip((acc & 0xFFFF_FFFF) as bv32);
    }

    // nftp_crc32c
    method Checksum(data: seq<bv8>, address: nat) returns (crc: bv32)
      requires Valid()
      modifies this, table
      ensures Valid() && init
      ensures crc == BitSerialCrc(CASTAGNOLI, data)
    {
      if !init {
        InitSw();
        init := true;
      }
      crc := Sw(0, data, address);
      ResumeIsBitSerial(data);
    }
  }

  // The 64-bit accumulator holds the 32-bit register and nothing above it.
  ghost predicate Register(acc: bv64, reg: bv32) {
    acc & 0xFFFF_FFFF_0000_0000 == 0 && acc == reg as bv64
  }

  lemma Mix(acc: bv64, reg: bv32, w: bv64, d: seq<bv8>)
    requires Register(acc, reg) && |d| == 8
    requires w == acc ^ LoadLe64(d[0], d[1], d[2], d[3], d[4], d[5], d[6], d[7])
    ensures Mixed(reg, w, d)
  {
  }

  lemma RegisterIs(reg: bv32)
    ensures Register(reg as bv64, reg)
  {
  }

  lemma RegisterLow(acc: bv64, reg: bv32)
    requires Register(acc, reg)
    ensures (acc & 0xFFFF_FFFF) as bv32 == reg
  {
  }

  function Flip(x: bv32): bv32 {
    x ^ ALL_ONES
  }

  // The checksum crci carried on over more bytes.
  function Resume(crci: bv32, data: seq<bv8>): bv32 {
    Flip(FeedBytes(POLY, Flip(crci), data))
  }

  lemma FeedNone(c: bv32, data: seq<bv8>)
    ensures FeedBytes(POLY, c, data[..0]) == c
  {
  }

  lemma FlipTwice(x: bv32)
    ensures Flip(Flip(x)) == x && Flip(0) == ALL_ONES
  {
  }

  // The whole checksum is that of the RFC's bit-serial register.
  lemma ResumeIsBitSerial(data: seq<bv8>)
    ensures Resume(0, data) == BitSerialCrc(CASTAGNOLI, data)
  {
    hide Mirror;
    hide FeedBytes;
    MirrorConstants();
    FlipTwice(0);
    FoldIsBitSerial(CASTAGNOLI, POLY, data);
  }

  // Checksumming in two calls is checksumming the concatenation.
  lemma ResumeConcat(crci: bv32, a: seq<bv8>, b: seq<bv8>)
    ensures Resume(Resume(crci, a), b) == Resume(crci, a + b)
  {
    hide FeedByte;
    hide Flip;
    FlipTwice(FeedBytes(POLY, Flip(crci), a));
    FeedBytesConcat(POLY, Flip(crci), a, b);
  }
}
