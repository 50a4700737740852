// File names and paths as the protocol spells them (src/nftp.h, src/file.c, src/hash.c).
module Names {
  import opened Bytes
  import opened Options
  import CrcSpec
  import CrcAlgebra

  // A C string, without its terminator.
  type Name = seq<Byte>
  // Every file by its path. An absent path is a file that does not exist.
  type Files = map<Name, seq<Byte>>

  const SLASH: Byte := 0x2f
  const UNDERSCORE: Byte := 0x5f
  const STAR: Name := [0x2a]
  const DOT: Name := [0x2e]
  const PART: Name := [0x2e, 0x70, 0x61, 0x72, 0x74]

  // The bytes of a 32-bit register, low to high, and the number it holds.
  function Byte0(x: bv32): Byte { (x & 0xFF) as bv8 }
  function Byte1(x: bv32): Byte { ((x >> 8) & 0xFF) as bv8 }
  function Byte2(x: bv32): Byte { ((x >> 16) & 0xFF) as bv8 }
  function Byte3(x: bv32): Byte { (x >> 24) as bv8 }

  function Number(x: bv32): u32 {
    Value(Byte3(x)) * 0x100_0000 + Value(Byte2(x)) * 0x1_0000 + Value(Byte1(x)) * 0x100 + Value(Byte0(x))
  }

  lemma BytesTell(x: bv32, y: bv32)
    requires Byte0(x) == Byte0(y) && Byte1(x) == Byte1(y) && Byte2(x) == Byte2(y) && Byte3(x) == Byte3(y)
    ensures x == y
  {
  }

  lemma ValueInjective(x: Byte, y: Byte)
    requires Value(x) == Value(y)
    ensures x == y
  {
    hide Value;
    hide ToByte;
    ByteTrip(x);
    ByteTrip(y);
  }

  lemma DigitsTell(a: nat, b: nat, c: nat, d: nat, e: nat, f: nat, g: nat, h: nat)
    requires a < 256 && b < 256 && c < 256 && d < 256 && e < 256 && f < 256 && g < 256 && h < 256
    requires a * 0x100_0000 + b * 0x1_0000 + c * 0x100 + d == e * 0x100_0000 + f * 0x1_0000 + g * 0x100 + h
    ensures a == e && b == f && c == g && d == h
  {
  }

  lemma NumberInjective(x: bv32, y: bv32)
    requires Number(x) == Number(y)
    ensures x == y
  {
    hide Byte0;
    hide Byte1;
    hide Byte2;
    hide Byte3;
    hide Value;
    DigitsTell(Value(Byte3(x)), Value(Byte2(x)), Value(Byte1(x)), Value(Byte0(x)),
               Value(Byte3(y)), Value(Byte2(y)), Value(Byte1(y)), Value(Byte0(y)));
    ValueInjective(Byte0(x), Byte0(y));
    ValueInjective(Byte1(x), Byte1(y));
    ValueInjective(Byte2(x), Byte2(y));
    ValueInjective(Byte3(x), Byte3(y));
    BytesTell(x, y);
  }

  // NFTP_HASH, as the field that carries it.
  function Crc(data: seq<Byte>): u32 {
    Number(CrcSpec.BitSerialCrc(CrcSpec.CASTAGNOLI, data))
  }

  lemma CrcDiffers(a: seq<Byte>, b: seq<Byte>)
    requires CrcSpec.BitSerialCrc(CrcSpec.CASTAGNOLI, a) != CrcSpec.BitSerialCrc(CrcSpec.CASTAGNOLI, b)
    ensures Crc(a) != Crc(b)
  {
    hide CrcSpec.BitSerialCrc;
    hide Number;
    if Crc(a) == Crc(b) {
      NumberInjective(CrcSpec.BitSerialCrc(CrcSpec.CASTAGNOLI, a), CrcSpec.BitSerialCrc(CrcSpec.CASTAGNOLI, b));
    }
  }

  lemma NoBits()
    ensures CrcSpec.BitSerialCrc(CrcSpec.CASTAGNOLI, []) == 0
  {
    hide CrcSpec.Mirror;
    CrcAlgebra.MirrorConstants();
  }

  // The file id of the empty name is 0.
  lemma CrcOfNothing()
    ensures Crc([]) == 0
  {
    hide CrcSpec.BitSerialCrc;
    NoBits();
  }

  lemma {:induction false} CStrWhole(s: Name)
    requires forall i :: 0 <= i < |s| ==> s[i] != 0
    ensures CStr(s) == s
  {
    if s == [] {
    } else {
      CStrWhole(s[1..]);
    }
  }

  // What strlen, strcpy and strcmp see of a buffer.
  function CStr(s: seq<Byte>): Name {
    if s == [] || s[0] == 0 then [] else [s[0]] + CStr(s[1..])
  }

  function StripSlashes(p: Name): Name {
    if p != [] && p[|p| - 1] == SLASH then StripSlashes(p[..|p| - 1]) else p
  }

  function AfterSlash(p: Name): Name {
    if p == [] then [] else if p[|p| - 1] == SLASH then [] else AfterSlash(p[..|p| - 1]) + [p[|p| - 1]]
  }

  // nftp_file_bname: POSIX basename.
  function Basename(p: Name): Name {
    if p == [] then DOT
    else
      var q := StripSlashes(p);
      if q == [] then [SLASH] else AfterSlash(q)
  }

  // nftp_file_partname
  function PartName(fname: Name): Name {
    fname + PART
  }

  // nftp_file_fullpath; no directory set reads as the empty one.
  function Path(dir: Name, fname: Name): Name {
    dir + fname
  }

  function Digit(d: nat): Byte
    requires d < 10
  {
    0x30 + d as bv8
  }

  // "_%02d" after the name.
  function Numbered(fname: Name, i: nat): Name
    requires i < 100
  {
    fname + [UNDERSCORE, Digit(i / 10), Digit(i % 10)]
  }

  // nftp_file_newname from number i on: the first numbered name that is free.
  function NewName(fs: Files, dir: Name, fname: Name, i: nat): (w: Option<Name>)
    requires i <= 100
    ensures w.Some? ==> Path(dir, w.value) !in fs
    ensures w.None? ==> forall j :: i <= j < 100 ==> Path(dir, Numbered(fname, j)) in fs
    decreases 100 - i
  {
    if i == 100 then None
    else if Path(dir, Numbered(fname, i)) !in fs then Some(Numbered(fname, i))
    else NewName(fs, dir, fname, i + 1)
  }

  lemma PathInjective(dir: Name, a: Name, b: Name)
    requires Path(dir, a) == Path(dir, b)
    ensures a == b
  {
    assert a == Path(dir, a)[|dir|..] && b == Path(dir, b)[|dir|..];
  }

  lemma PartInjective(a: Name, b: Name)
    requires PartName(a) == PartName(b)
    ensures a == b
  {
    assert a == PartName(a)[..|PartName(a)| - 5] && b == PartName(b)[..|PartName(b)| - 5];
  }

  ghost predicate NoSlash(p: Name) {
    forall i :: 0 <= i < |p| ==> p[i] != SLASH
  }

  lemma {:induction false} NoSlashStays(p: Name)
    requires NoSlash(p)
    ensures StripSlashes(p) == p && AfterSlash(p) == p
    decreases p
  {
    if p == [] {
    } else {
      NoSlashStays(p[..|p| - 1]);
    }
  }

  lemma {:induction false} AfterSlashHasNone(p: Name)
    ensures NoSlash(AfterSlash(p)) && |AfterSlash(p)| <= |p|
    ensures p != [] && p[|p| - 1] != SLASH ==> AfterSlash(p) != []
    decreases p
  {
    if p == [] {
    } else {
      AfterSlashHasNone(p[..|p| - 1]);
    }
  }

  lemma {:induction false} StripSlashesEnds(p: Name)
    ensures var q := StripSlashes(p); q != [] ==> q[|q| - 1] != SLASH
    decreases p
  {
    if p == [] {
    } else {
      StripSlashesEnds(p[..|p| - 1]);
    }
  }

  // A base name is its own base name.
  lemma BasenameOfBasename(p: Name)
    ensures Basename(Basename(p)) == Basename(p)
  {
    var q := StripSlashes(p);
    StripSlashesEnds(p);
    AfterSlashHasNone(q);
    NoSlashStays(AfterSlash(q));
    NoSlashStays(DOT);
    if p != [] && q == [] {
      assert [SLASH][..0] == [] && StripSlashes([SLASH]) == [];
    }
  }

  lemma {:induction false} AfterSlashOf(d: Name, b: Name)
    requires NoSlash(b)
    ensures AfterSlash(d + [0x2F] + b) == b
    decreases b
  {
    var p := d + [0x2F] + b;
    if b == [] {
    } else {
      var b' := b[..|b| - 1];
      assert p[..|p| - 1] == d + [0x2F] + b';
      AfterSlashOf(d, b');
    }
  }

  ghost function Slashes(k: nat): Name {
    seq(k, _ => 0x2F)
  }

  lemma {:induction false} StripSlashesOf(q: Name, k: nat)
    requires q == [] || q[|q| - 1] != 0x2F
    ensures StripSlashes(q + Slashes(k)) == q
    decreases k
  {
    var p := q + Slashes(k);
    if k == 0 {
      assert p == q;
    } else {
      assert p[..|p| - 1] == q + Slashes(k - 1);
      StripSlashesOf(q, k - 1);
    }
  }

  // The base name is what follows the last slash, slashes at the end apart.
  lemma BasenameOf(d: Name, b: Name, k: nat)
    requires b != [] && NoSlash(b)
    ensures Basename(d + [0x2F] + b + Slashes(k)) == b && Basename(b + Slashes(k)) == b
  {
    StripSlashesOf(d + [0x2F] + b, k);
    AfterSlashOf(d, b);
    StripSlashesOf(b, k);
    NoSlashStays(b);
  }

  // It is never empty, and holds no slash unless it is one.
  lemma BasenamePlain(p: Name)
    ensures Basename(p) != [] && (NoSlash(Basename(p)) || Basename(p) == [0x2F])
    ensures Basename([]) == [0x2E] && forall k: nat :: k > 0 ==> Basename(Slashes(k)) == [0x2F]
  {
    var q := StripSlashes(p);
    StripSlashesEnds(p);
    AfterSlashHasNone(q);
    forall k: nat | k > 0
      ensures Basename(Slashes(k)) == [0x2F]
    {
      StripSlashesOf([], k);
      assert [] + Slashes(k) == Slashes(k);
    }
  }

  // What C sees of a buffer is all before the first zero.
  lemma {:induction false} CStrIs(s: Name)
    ensures CStr(s) <= s && forall i :: 0 <= i < |CStr(s)| ==> CStr(s)[i] != 0
    ensures |CStr(s)| < |s| ==> s[|CStr(s)|] == 0
  {
    if s == [] || s[0] == 0 {
    } else {
      CStrIs(s[1..]);
    }
  }

  lemma {:induction false} CStrShorter(s: seq<Byte>)
    ensures |CStr(s)| <= |s|
  {
    if s == [] {
    } else {
      CStrShorter(s[1..]);
    }
  }

  lemma {:induction false} StripSlashesShorter(p: Name)
    ensures |StripSlashes(p)| <= |p|
  {
    if p == [] {
    } else {
      StripSlashesShorter(p[..|p| - 1]);
    }
  }

  lemma BasenameShort(p: Name)
    ensures |Basename(p)| <= |p| || |Basename(p)| == 1
  {
    StripSlashesShorter(p);
    AfterSlashHasNone(StripSlashes(p));
  }
}
