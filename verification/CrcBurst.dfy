// A CRC notices every error burst no longer than its register.
module CrcBurst {
  import opened CrcSpec
  import opened CrcAlgebra

  // Ones in the lowest n places.
  function Mask(n: nat): bv32 {
    if n == 0 then 0 else (Mask(n - 1) << 1) | 1
  }

  ghost predicate Within(x: bv32, y: bv32) {
    x & !y == 0
  }

  lemma WithinShifts(x: bv32, y: bv32)
    requires Within(x, y)
    ensures Within((x << 1) | 1, (y << 1) | 1)
  {
  }

  lemma WithinTransitive(x: bv32, y: bv32, z: bv32)
    requires Within(x, y) && Within(y, z)
    ensures Within(x, z)
  {
  }

  lemma {:induction false} MaskGrows(n: nat)
    ensures Within(Mask(n), Mask(n + 1))
  {
    if n == 0 {
    } else {
      MaskGrows(n - 1);
      WithinShifts(Mask(n - 1), Mask(n));
    }
  }

  lemma {:induction false} MaskWithin(n: nat, m: nat)
    requires n <= m
    ensures Within(Mask(n), Mask(m))
    decreases m - n
  {
    hide Mask;
    if n == m {
    } else {
      MaskGrows(n);
      MaskWithin(n + 1, m);
      WithinTransitive(Mask(n), Mask(n + 1), Mask(m));
    }
  }

  lemma MaskIs(n: nat)
    ensures n > 0 ==> Mask(n) == (Mask(n - 1) << 1) | 1
    ensures Within(0, Mask(n))
  {
  }

  lemma TopClear(x: bv32)
    requires Within(x, Mask(31))
    ensures x & 0x8000_0000 == 0
  {
    assert Mask(2) == 0x3 && Mask(4) == 0xF && Mask(6) == 0x3F && Mask(8) == 0xFF;
    assert Mask(10) == 0x3FF && Mask(12) == 0xFFF && Mask(14) == 0x3FFF && Mask(16) == 0xFFFF;
    assert Mask(18) == 0x3_FFFF && Mask(20) == 0xF_FFFF && Mask(22) == 0x3F_FFFF && Mask(24) == 0xFF_FFFF;
    assert Mask(26) == 0x3FF_FFFF && Mask(28) == 0xFFF_FFFF && Mask(30) == 0x3FFF_FFFF && Mask(31) == 0x7FFF_FFFF;
  }

  // Bits gathered into a word, the first one lowest.
  function Pack(bits: seq<bool>): bv32
    decreases bits
  {
    if bits == [] then 0 else Push(Pack(bits[1..]), bits[0])
  }

  function Push(r: bv32, bit: bool): bv32 {
    (r << 1) | Bit(bit)
  }

  lemma PushOne(r: bv32, m: bv32)
    requires Within(r, m)
    ensures Within(Push(r, true), (m << 1) | 1)
  {
  }

  lemma PushZero(r: bv32, m: bv32)
    requires Within(r, m)
    ensures Within(Push(r, false), (m << 1) | 1)
  {
  }

  lemma PushWithin(r: bv32, bit: bool, m: bv32)
    requires Within(r, m)
    ensures Within(Push(r, bit), (m << 1) | 1)
  {
    hide *;
    if bit {
      PushOne(r, m);
    } else {
      PushZero(r, m);
    }
  }

  lemma PushHolds(r: bv32, bits: seq<bool>)
    requires bits != [] && r & 0x8000_0000 == 0 && Holds(r, bits[1..])
    ensures Holds(Push(r, bits[0]), bits)
  {
    hide Push;
    hide Sheds;
    hide Holds;
    PushPops(r, bits[0]);
    HoldsStep(Push(r, bits[0]), r, bits);
  }

  lemma PushPops(r: bv32, bit: bool)
    requires r & 0x8000_0000 == 0
    ensures Sheds(Push(r, bit), bit, r)
  {
    hide *;
    if bit {
      PopOne(r);
    } else {
      PopZero(r);
    }
  }

  lemma PopOne(r: bv32)
    requires r & 0x8000_0000 == 0
    ensures Sheds(Push(r, true), true, r)
  {
  }

  lemma PopZero(r: bv32)
    requires r & 0x8000_0000 == 0
    ensures Sheds(Push(r, false), false, r)
  {
  }

  lemma HoldsStep(r: bv32, r': bv32, bits: seq<bool>)
    requires bits != [] && Sheds(r, bits[0], r') && Holds(r', bits[1..])
    ensures Holds(r, bits)
  {
  }

  lemma {:induction false} PackHolds(bits: seq<bool>)
    requires |bits| <= 32
    ensures Within(Pack(bits), Mask(|bits|)) && Holds(Pack(bits), bits)
    decreases bits
  {
    hide Within;
    hide Push;
    hide Mask;
    hide Holds;
    if bits == [] {
      MaskIs(0);
      HoldsNone(bits);
    } else {
      var r, n := Pack(bits[1..]), |bits| - 1;
      PackHolds(bits[1..]);
      MaskIs(n + 1);
      PushWithin(r, bits[0], Mask(n));
      ShortIsLow(r, n);
      PushHolds(r, bits);
    }
  }

  lemma HoldsNone(bits: seq<bool>)
    requires bits == []
    ensures Holds(0, bits)
  {
  }

  lemma ShortIsLow(r: bv32, n: nat)
    requires n <= 31 && Within(r, Mask(n))
    ensures r & 0x8000_0000 == 0
  {
    hide Within;
    hide Mask;
    MaskWithin(n, 31);
    WithinTransitive(r, Mask(n), Mask(31));
    TopClear(r);
  }

  // A word holds one bit string of each length.
  lemma {:induction false} HoldsUnique(r: bv32, u: seq<bool>, v: seq<bool>)
    requires |u| == |v| && Holds(r, u) && Holds(r, v)
    ensures u == v
    decreases u
  {
    if u == [] {
    } else {
      HoldsUnique(r >> 1, u[1..], v[1..]);
      assert u == [u[0]] + u[1..] && v == [v[0]] + v[1..];
    }
  }

  // At most 32 bits: from one register, different bits lead to different registers.
  lemma WindowInjective(poly: bv32, c: bv32, u: seq<bool>, v: seq<bool>)
    requires poly & 0x8000_0000 != 0 && |u| == |v| <= 32
    requires Feed(poly, c, u) == Feed(poly, c, v)
    ensures u == v
  {
    hide Feed;
    hide Steps;
    hide Holds;
    hide Pack;
    hide BitStep;
    PackHolds(u);
    PackHolds(v);
    var s, t := AddTo(c, Pack(u)), AddTo(c, Pack(v));
    FeedAtOnce(poly, s, c, Pack(u), u);
    FeedAtOnce(poly, t, c, Pack(v), v);
    StepsInjective(poly, s, t, |u|);
    AddCancels(c, Pack(u), Pack(v));
    HoldsUnique(Pack(u), u, v);
  }

  function AddTo(c: bv32, r: bv32): (s: bv32)
    ensures Sum(s, c, r)
  {
    c ^ r
  }

  lemma AddCancels(c: bv32, x: bv32, y: bv32)
    requires AddTo(c, x) == AddTo(c, y)
    ensures x == y
  {
  }

  // Equal bits keep different registers different.
  lemma {:induction false} SuffixInjective(poly: bv32, c: bv32, d: bv32, bits: seq<bool>)
    requires poly & 0x8000_0000 != 0 && Feed(poly, c, bits) == Feed(poly, d, bits)
    ensures c == d
    decreases bits
  {
    hide FeedBit;
    if bits == [] {
    } else {
      SuffixInjective(poly, FeedBit(poly, c, bits[0]), FeedBit(poly, d, bits[0]), bits[1..]);
      FeedBitInjective(poly, c, d, bits[0]);
    }
  }

  lemma FeedBitInjective(poly: bv32, c: bv32, d: bv32, bit: bool)
    requires poly & 0x8000_0000 != 0 && FeedBit(poly, c, bit) == FeedBit(poly, d, bit)
    ensures c == d
  {
    hide BitStep;
    hide AddTo;
    FeedBitIs(poly, c, bit);
    FeedBitIs(poly, d, bit);
    StepInjective(poly, AddTo(Bit(bit), c), AddTo(Bit(bit), d));
    AddCancels(Bit(bit), c, d);
  }

  lemma FeedBitIs(poly: bv32, c: bv32, bit: bool)
    ensures FeedBit(poly, c, bit) == BitStep(poly, AddTo(Bit(bit), c))
  {
    hide BitStep;
  }

  // Bit strings that agree outside a window of at most 32 bits and are fed to equal effect are equal.
  lemma FeedBurst(poly: bv32, c: bv32, u: seq<bool>, v: seq<bool>, k: nat, n: nat)
    requires poly & 0x8000_0000 != 0 && |u| == |v| && k <= n <= |u| && n - k <= 32
    requires forall i :: 0 <= i < |u| && !(k <= i < n) ==> u[i] == v[i]
    requires Feed(poly, c, u) == Feed(poly, c, v)
    ensures u == v
  {
    hide Feed;
    assert u[..k] == v[..k] && u[n..] == v[n..];
    var c' := Feed(poly, c, u[..k]);
    FeedSplit(poly, c, u, k, n);
    FeedSplit(poly, c, v, k, n);
    SuffixInjective(poly, Feed(poly, c', u[k..n]), Feed(poly, c', v[k..n]), u[n..]);
    WindowInjective(poly, c', u[k..n], v[k..n]);
    ThreeParts(u, k, n);
    ThreeParts(v, k, n);
  }

  lemma ThreeParts(u: seq<bool>, k: nat, n: nat)
    requires k <= n <= |u|
    ensures u == u[..k] + u[k..n] + u[n..]
  {
  }

  lemma FeedSplit(poly: bv32, c: bv32, u: seq<bool>, k: nat, n: nat)
    requires k <= n <= |u|
    ensures Feed(poly, c, u) == Feed(poly, Feed(poly, Feed(poly, c, u[..k]), u[k..n]), u[n..])
  {
    hide Feed;
    assert u == u[..k] + u[k..] && u[k..] == u[k..n] + u[n..];
    FeedConcat(poly, c, u[..k], u[k..]);
    FeedConcat(poly, Feed(poly, c, u[..k]), u[k..n], u[n..]);
  }

  lemma ByteBitsInjective(x: bv8, y: bv8)
    requires BitsOf(x) == BitsOf(y)
    ensures x == y
  {
    assert forall i :: 0 <= i < 8 ==> BitsOf(x)[i] == BitsOf(y)[i];
  }

  lemma {:induction false} MessageBitsInjective(a: seq<bv8>, b: seq<bv8>)
    requires MessageBits(a) == MessageBits(b)
    ensures a == b
    decreases a
  {
    hide BitsOf;
    assert |MessageBits(a)| == |MessageBits(b)|;
    if a == [] {
    } else {
      assert BitsOf(a[0]) == MessageBits(a)[..8] && BitsOf(b[0]) == MessageBits(b)[..8];
      assert MessageBits(a[1..]) == MessageBits(a)[8..] && MessageBits(b[1..]) == MessageBits(b)[8..];
      ByteBitsInjective(a[0], b[0]);
      MessageBitsInjective(a[1..], b[1..]);
      assert a == [a[0]] + a[1..] && b == [b[0]] + b[1..];
    }
  }

  // The two messages agree except within some 32 consecutive bits, in transmission order.
  ghost predicate DifferInBurst(a: seq<bv8>, b: seq<bv8>) {
    && |a| == |b|
    && exists k: nat :: AgreeOutside(MessageBits(a), MessageBits(b), k)
  }

  ghost predicate AgreeOutside(u: seq<bool>, v: seq<bool>, k: nat) {
    |u| == |v| && forall i :: 0 <= i < |u| && !(k <= i < k + 32) ==> u[i] == v[i]
  }

  lemma PolyTop()
    ensures POLY & 0x8000_0000 != 0
  {
  }

  lemma PolyMirrors()
    ensures POLY == Mirror(CASTAGNOLI)
  {
    hide Mirror;
    MirrorConstants();
  }

  function Complement(r: bv32): bv32 {
    r ^ ALL_ONES
  }

  lemma ComplementInjective(x: bv32, y: bv32)
    requires Complement(x) == Complement(y)
    ensures x == y
  {
  }

  lemma CrcIsFeed(data: seq<bv8>)
    ensures BitSerialCrc(CASTAGNOLI, data) == Complement(Feed(POLY, ALL_ONES, MessageBits(data)))
  {
    hide FeedBytes;
    hide Feed;
    hide Mirror;
    hide MessageBits;
    hide BitSerialCrc;
    hide POLY;
    PolyMirrors();
    FoldIsBitSerial(CASTAGNOLI, POLY, data);
    FeedBytesIsBits(POLY, ALL_ONES, data);
  }

  // No burst of up to 32 bits goes unnoticed: CRC-32C tells the two messages apart.
  lemma BurstDetected(a: seq<bv8>, b: seq<bv8>)
    requires DifferInBurst(a, b) && a != b
    ensures BitSerialCrc(CASTAGNOLI, a) != BitSerialCrc(CASTAGNOLI, b)
  {
    hide Feed;
    hide MessageBits;
    hide BitSerialCrc;
    hide Complement;
    hide POLY;
    hide CASTAGNOLI;
    hide ALL_ONES;
    var k: nat :| AgreeOutside(MessageBits(a), MessageBits(b), k);
    var len := |MessageBits(a)|;
    var lo := if k < len then k else len;
    var hi := if k + 32 < len then k + 32 else len;
    if BitSerialCrc(CASTAGNOLI, a) == BitSerialCrc(CASTAGNOLI, b) {
      CrcIsFeed(a);
      CrcIsFeed(b);
      ComplementInjective(Feed(POLY, ALL_ONES, MessageBits(a)), Feed(POLY, ALL_ONES, MessageBits(b)));
      PolyTop();
      FeedBurst(POLY, ALL_ONES, MessageBits(a), MessageBits(b), lo, hi);
      MessageBitsInjective(a, b);
    }
  }
}
