// src/file.c: a file read block by block, with the offset computed in 32 bits.
module Blocks {
  import opened Status
  import opened Bytes
  import opened Pieces

  // nftp_file_exist and the contents behind a path.
  datatype File = Absent | Present(data: seq<Byte>)

  // The first offset of block n, before truncation.
  function Start(n: nat, bs: nat): nat {
    n * bs
  }

  // Blocks of a file, a short one always closing it.
  function Count(size: nat, bs: nat): (c: nat)
    requires bs > 0
    ensures c > 0
  {
    size / bs + 1
  }

  lemma StartStep(n: nat, bs: nat)
    ensures Start(n + 1, bs) == Start(n, bs) + bs
  {
  }

  lemma StartMonotone(a: nat, b: nat, bs: nat)
    requires a <= b
    ensures Start(a, bs) <= Start(b, bs)
    decreases b - a
  {
    if a == b {
    } else {
      StartStep(b - 1, bs);
      StartMonotone(a, b - 1, bs);
    }
  }

  lemma LastStart(size: nat, bs: nat)
    requires bs > 0
    ensures Start(size / bs, bs) <= size < Start(size / bs, bs) + bs
  {
  }

  lemma StartFits(size: nat, bs: nat, n: nat)
    requires bs > 0 && n < Count(size, bs)
    ensures Start(n, bs) <= size
    ensures n + 1 < Count(size, bs) ==> Start(n, bs) + bs == Start(n + 1, bs) <= size
    ensures n + 1 == Count(size, bs) ==> size - Start(n, bs) < bs
  {
    hide Start;
    LastStart(size, bs);
    StartStep(n, bs);
    StartMonotone(n, size / bs, bs);
    if n + 1 < Count(size, bs) {
      StartMonotone(n + 1, size / bs, bs);
    }
  }

  // Block n of a file.
  function Chunk(file: seq<Byte>, bs: nat, n: nat): seq<Byte>
    requires bs > 0 && n < Count(|file|, bs)
  {
    StartFits(|file|, bs, n);
    if n + 1 == Count(|file|, bs) then file[Start(n, bs)..] else file[Start(n, bs)..Start(n, bs) + bs]
  }

  // The first n blocks.
  function Chunks(file: seq<Byte>, bs: nat, n: nat): (cs: seq<seq<Byte>>)
    requires bs > 0 && n <= Count(|file|, bs)
    ensures |cs| == n && forall i :: 0 <= i < n ==> cs[i] == Chunk(file, bs, i)
  {
    if n == 0 then [] else Chunks(file, bs, n - 1) + [Chunk(file, bs, n - 1)]
  }

  lemma {:induction false} ChunksConcat(file: seq<Byte>, bs: nat, n: nat)
    requires bs > 0 && n <= Count(|file|, bs)
    ensures n < Count(|file|, bs) ==> Start(n, bs) <= |file| && Concat(Chunks(file, bs, n)) == file[..Start(n, bs)]
    ensures n == Count(|file|, bs) ==> Concat(Chunks(file, bs, n)) == file
  {
    hide Concat;
    hide Start;
    if n == 0 {
      ConcatNone();
      assert Start(0, bs) == 0 by { StartZero(bs); }
    } else {
      ChunksConcat(file, bs, n - 1);
      ConcatSnoc(Chunks(file, bs, n - 1), Chunk(file, bs, n - 1));
      StartFits(|file|, bs, n - 1);
      if n < Count(|file|, bs) {
        assert file[..Start(n - 1, bs)] + file[Start(n - 1, bs)..Start(n, bs)] == file[..Start(n, bs)];
      } else {
        assert file[..Start(n - 1, bs)] + file[Start(n - 1, bs)..] == file;
      }
    }
  }

  lemma StartZero(bs: nat)
    ensures Start(0, bs) == 0
  {
  }

  // The blocks concatenate to the file; all but the last are full, and the last is strictly shorter.
  lemma Partition(file: seq<Byte>, bs: nat)
    requires bs > 0
    ensures var c := Count(|file|, bs); var cs := Chunks(file, bs, c);
            && Concat(cs) == file
            && (forall i :: 0 <= i < c - 1 ==> |cs[i]| == bs)
            && |cs[c - 1]| < bs
  {
    hide Concat;
    hide Start;
    var c := Count(|file|, bs);
    ChunksConcat(file, bs, c);
    forall i | 0 <= i < c
      ensures if i < c - 1 then |Chunk(file, bs, i)| == bs else |Chunk(file, bs, i)| < bs
    {
      StartFits(|file|, bs, i);
    }
  }

  // The last block is empty exactly when the file is a whole number of blocks.
  lemma LastEmpty(file: seq<Byte>, bs: nat)
    requires bs > 0
    ensures Chunk(file, bs, Count(|file|, bs) - 1) == [] <==> |file| % bs == 0
  {
    StartFits(|file|, bs, |file| / bs);
    assert Start(|file| / bs, bs) + |file| % bs == |file|;
  }

  // n * nftp_get_blocksz() as the code computes it, in 32 bits.
  function Offset(n: nat, bs: nat): nat {
    Start(n, bs) % 0x1_0000_0000
  }

  lemma OffsetWraps(n: nat, bs: nat)
    ensures Offset(n, bs) <= Start(n, bs)
    ensures Offset(n, bs) == Start(n, bs) <==> Start(n, bs) < 0x1_0000_0000
  {
    hide Start;
  }

  // What nftp_file_readblk leaves in its buffer.
  function BlockRead(file: seq<Byte>, bs: nat, n: nat): seq<Byte>
    requires bs > 0 && n < Count(|file|, bs)
  {
    StartFits(|file|, bs, n);
    OffsetWraps(n, bs);
    if n == |file| / bs then file[Offset(n, bs)..] else file[Offset(n, bs)..Offset(n, bs) + bs]
  }

  lemma ReadsChunk(file: seq<Byte>, bs: nat, n: nat)
    requires bs > 0 && n < Count(|file|, bs) && Start(n, bs) < 0x1_0000_0000
    ensures BlockRead(file, bs, n) == Chunk(file, bs, n)
  {
    hide Start;
    OffsetWraps(n, bs);
  }

  // A file whose block n starts at or past 4 GiB and is not what is read for it.
  lemma WrapMisreads(size: nat, bs: nat, n: nat) returns (file: seq<Byte>)
    requires bs > 0 && n < Count(size, bs) && Start(n, bs) >= 0x1_0000_0000
    ensures |file| == size && BlockRead(file, bs, n) != Chunk(file, bs, n)
  {
    hide Start;
    StartFits(size, bs, n);
    OffsetWraps(n, bs);
    var at := Start(n, bs);
    file := seq(size, i => if i < at then 0 else 1);
    if n != size / bs {
      assert Chunk(file, bs, n)[0] == 1;
      assert BlockRead(file, bs, n)[0] == 0;
    }
  }

  // Block n of a file of this size is read right, whatever the file holds, exactly when it starts below 4 GiB.
  lemma ReadsRightExactly(size: nat, bs: nat, n: nat)
    requires bs > 0 && n < Count(size, bs)
    ensures (forall file: seq<Byte> :: |file| == size ==> BlockRead(file, bs, n) == Chunk(file, bs, n))
       <==> Start(n, bs) < 0x1_0000_0000
  {
    hide Start;
    hide BlockRead;
    hide Chunk;
    if Start(n, bs) < 0x1_0000_0000 {
      forall file: seq<Byte> | |file| == size
        ensures BlockRead(file, bs, n) == Chunk(file, bs, n)
      {
        ReadsChunk(file, bs, n);
      }
    } else {
      var file := WrapMisreads(size, bs, n);
    }
  }

  // nftp_file_blocks
  method FileBlocks(file: File, bs: u32) returns (rv: int, blocks: nat)
    requires bs > 0
    ensures rv == if file.Absent? then ERR_FILEPATH else OK
    ensures rv == OK ==> blocks == |Chunks(file.data, bs, Count(|file.data|, bs))|
  {
    if file.Absent? {
      return ERR_FILEPATH, 0;
    }
    return OK, |file.data| / bs + 1;
  }

  // nftp_file_readblk: seek, then read.
  method ReadBlk(file: File, n: nat, bs: u32) returns (rv: int, str: array<Byte>, sz: nat)
    requires bs > 0
    ensures rv == if file.Absent? then ERR_FILEPATH else if n >= Count(|file.data|, bs) then ERR_BLOCKS else OK
    ensures rv == OK ==> && fresh(str) && str.Length == sz + 1 && str[sz] == 0
                         && str[..sz] == BlockRead(file.data, bs, n)
  {
    hide Start;
    str, sz := new Byte[0], 0;
    if file.Absent? {
      return ERR_FILEPATH, str, sz;
    }
    var filesize, blksz := |file.data|, bs;
    if n > filesize / bs {
      return ERR_BLOCKS, str, sz;
    }
    StartFits(filesize, bs, n);
    OffsetWraps(n, bs);
    var at := Offset(n, bs);
    if n == filesize / bs {
      blksz := filesize - at;
    }
    str := new Byte[blksz + 1](_ => 0);
    forall i | 0 <= i < blksz {
      str[i] := file.data[at + i];
    }
    return OK, str, blksz;
  }
}
