// Bytes, fixed-width integers, and the big-endian put and get macros of src/nftp.h.
module Bytes {
  type Byte = bv8
  type u16 = x: int | 0 <= x < 0x1_0000
  type u32 = x: int | 0 <= x < 0x1_0000_0000

  function ToByte(n: nat): Byte
    requires n < 256
  {
    n as bv8
  }

  function Value(b: Byte): (n: nat)
    ensures n < 256
  {
    b as int
  }

  lemma ByteTrip(b: Byte)
    ensures ToByte(Value(b)) == b
  {
  }

  lemma Successor(b: Byte) returns (c: Byte)
    requires Value(b) < 255
    ensures Value(c) == Value(b) + 1
  {
    assert b < 255;
    c := b + 1;
  }

  lemma ZeroByte()
    ensures Value(ToByte(0)) == 0
  {
  }

  lemma {:induction false} ValueTrip(n: nat)
    requires n < 256
    ensures Value(ToByte(n)) == n
  {
    hide ToByte;
    hide Value;
    if n == 0 {
      ZeroByte();
    } else {
      ValueTrip(n - 1);
      var c := Successor(ToByte(n - 1));
      ByteTrip(c);
    }
  }

  // nftp_put_u16: the high byte, then the low byte.
  function Put16(u: u16): (s: seq<Byte>)
    ensures |s| == 2
  {
    [ToByte(u / 0x100), ToByte(u % 0x100)]
  }

  // nftp_put_u32: the four bytes of u, high to low, as two halves.
  function Put32(u: u32): (s: seq<Byte>)
    ensures |s| == 4
  {
    Put16(u / 0x1_0000) + Put16(u % 0x1_0000)
  }

  // The digits in base 256, the highest first.
  lemma Put16Digits(u: u16)
    ensures Put16(u)[0] as int == u / 0x100 && Put16(u)[1] as int == u % 0x100
  {
    hide ToByte;
    ValueTrip(u / 0x100);
    ValueTrip(u % 0x100);
  }

  lemma DigitsOfHalves(u: u32)
    ensures u / 0x1_0000 / 0x100 == u / 0x100_0000
    ensures u % 0x1_0000 / 0x100 == u / 0x100 % 0x100
    ensures u % 0x1_0000 % 0x100 == u % 0x100
  {
    var a, b, c, d := u / 0x100_0000, u / 0x1_0000 % 0x100, u / 0x100 % 0x100, u % 0x100;
    assert u == a * 0x100_0000 + b * 0x1_0000 + c * 0x100 + d;
  }

  lemma Put32Bytes(u: u32)
    ensures Put32(u) == [ToByte(u / 0x100_0000), ToByte(u / 0x1_0000 % 0x100), ToByte(u / 0x100 % 0x100), ToByte(u % 0x100)]
  {
    hide ToByte;
    DigitsOfHalves(u);
  }

  lemma Put32Digits(u: u32)
    ensures Put32(u)[0] as int == u / 0x100_0000 && Put32(u)[1] as int == u / 0x1_0000 % 0x100
    ensures Put32(u)[2] as int == u / 0x100 % 0x100 && Put32(u)[3] as int == u % 0x100
  {
    hide Put16;
    DigitsOfHalves(u);
    Put16Digits(u / 0x1_0000);
    Put16Digits(u % 0x1_0000);
  }

  // nftp_get_u16
  function Get16(s: seq<Byte>, at: nat): u16
    requires at + 2 <= |s|
  {
    Value(s[at]) * 0x100 + Value(s[at + 1])
  }

  // nftp_get_u32
  function Get32(s: seq<Byte>, at: nat): u32
    requires at + 4 <= |s|
  {
    Get16(s, at) * 0x1_0000 + Get16(s, at + 2)
  }

  // The bytes of x stand in s from position at on.
  ghost predicate StandsAt(x: seq<Byte>, s: seq<Byte>, at: nat) {
    at + |x| <= |s| && s[at..at + |x|] == x
  }

  lemma GetPut16(u: u16, s: seq<Byte>, at: nat)
    requires StandsAt(Put16(u), s, at)
    ensures Get16(s, at) == u
  {
    hide ToByte;
    hide Value;
    ValueTrip(u / 0x100);
    ValueTrip(u % 0x100);
    assert s[at] == s[at..at + 2][0] && s[at + 1] == s[at..at + 2][1];
  }

  lemma GetPut32(u: u32, s: seq<Byte>, at: nat)
    requires StandsAt(Put32(u), s, at)
    ensures Get32(s, at) == u
  {
    hide Put16;
    hide Get16;
    var x := s[at..at + 4];
    assert s[at..at + 2] == x[..2] && s[at + 2..at + 4] == x[2..];
    GetPut16(u / 0x1_0000, s, at);
    GetPut16(u % 0x1_0000, s, at + 2);
  }

  lemma PutGet16(s: seq<Byte>, at: nat)
    requires at + 2 <= |s|
    ensures Put16(Get16(s, at)) == s[at..at + 2]
  {
    hide ToByte;
    hide Value;
    ByteTrip(s[at]);
    ByteTrip(s[at + 1]);
  }

  lemma PutGet32(s: seq<Byte>, at: nat)
    requires at + 4 <= |s|
    ensures Put32(Get32(s, at)) == s[at..at + 4]
  {
    hide Put16;
    hide Get16;
    PutGet16(s, at);
    PutGet16(s, at + 2);
    assert s[at..at + 2] + s[at + 2..at + 4] == s[at..at + 4];
  }
}
