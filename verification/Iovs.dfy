// src/iovs.c: a bounded vector of slices that are read only when they are flattened.
module GatherVectors {
  import opened Status
  import opened Bytes

  // struct iovec: n bytes of mem from off on, by reference.
  datatype Slice = Slice(mem: array?<Byte>, off: nat, n: nat)

  predicate InBounds(s: Slice) {
    if s.mem == null then s.n == 0 else s.off + s.n <= s.mem.Length
  }

  function Backing(ss: seq<Slice>): set<array<Byte>> {
    set s | s in ss && s.mem != null :: s.mem
  }

  // The bytes the slice refers to now.
  function Bytes1(s: Slice): (b: seq<Byte>)
    requires InBounds(s)
    reads s.mem
    ensures |b| == s.n
  {
    if s.mem == null then [] else s.mem[s.off..s.off + s.n]
  }

  ghost predicate AllInBounds(ss: seq<Slice>) {
    forall i :: 0 <= i < |ss| ==> InBounds(ss[i])
  }

  // The bytes the slices refer to now, end to end.
  ghost function Gather(ss: seq<Slice>): seq<Byte>
    requires AllInBounds(ss)
    reads Backing(ss)
  {
    if ss == [] then [] else Bytes1(ss[0]) + Gather(ss[1..])
  }

  function Total(ss: seq<Slice>): nat {
    if ss == [] then 0 else ss[0].n + Total(ss[1..])
  }

  lemma {:induction false} TotalAppend(ss: seq<Slice>, ts: seq<Slice>)
    ensures Total(ss + ts) == Total(ss) + Total(ts)
    decreases ss
  {
    if ss == [] {
      assert ss + ts == ts;
    } else {
      assert (ss + ts)[1..] == ss[1..] + ts;
      TotalAppend(ss[1..], ts);
    }
  }

  lemma {:induction false} GatherAppend(ss: seq<Slice>, ts: seq<Slice>)
    requires AllInBounds(ss) && AllInBounds(ts)
    ensures AllInBounds(ss + ts) && Gather(ss + ts) == Gather(ss) + Gather(ts)
    decreases ss
  {
    if ss == [] {
      assert ss + ts == ts;
    } else {
      assert (ss + ts)[1..] == ss[1..] + ts;
      GatherAppend(ss[1..], ts);
    }
  }

  lemma GatherOne(s: Slice)
    requires InBounds(s)
    ensures Gather([s]) == Bytes1(s) && Total([s]) == s.n
  {
    assert [s][1..] == [];
  }

  lemma {:induction false} GatherLength(ss: seq<Slice>)
    requires AllInBounds(ss)
    ensures |Gather(ss)| == Total(ss)
    decreases ss
  {
    if ss == [] {
    } else {
      GatherLength(ss[1..]);
    }
  }

  lemma TotalStep(ss: seq<Slice>, i: nat)
    requires i < |ss|
    ensures Total(ss[..i + 1]) == Total(ss[..i]) + ss[i].n <= Total(ss)
  {
    hide Total;
    PrefixStep(ss, i);
    TotalAppend(ss[..i], [ss[i]]);
    TotalAppend(ss[..i + 1], ss[i + 1..]);
    TotalOne(ss[i]);
  }

  lemma TotalOne(s: Slice)
    ensures Total([s]) == s.n
  {
    assert [s][1..] == [];
  }

  lemma PrefixStep(ss: seq<Slice>, i: nat)
    requires i < |ss|
    ensures ss[..i + 1] == ss[..i] + [ss[i]] && ss == ss[..i + 1] + ss[i + 1..]
  {
  }

  lemma GatherStep(ss: seq<Slice>, i: nat)
    requires i < |ss| && AllInBounds(ss)
    ensures AllInBounds(ss[..i]) && AllInBounds(ss[..i + 1])
    ensures Gather(ss[..i + 1]) == Gather(ss[..i]) + Bytes1(ss[i])
  {
    hide Gather;
    hide Backing;
    hide InBounds;
    hide Bytes1;
    PrefixStep(ss, i);
    GatherOne(ss[i]);
    GatherAppend(ss[..i], [ss[i]]);
  }

  lemma GatherNone(ss: seq<Slice>)
    ensures ss[..0] == [] && Gather([]) == [] && Total([]) == 0
  {
  }

  // A slice more or less at either end.
  lemma TailSlice(ss: seq<Slice>, s: Slice)
    ensures Total(ss + [s]) == Total(ss) + s.n
    ensures AllInBounds(ss) && InBounds(s) <==> AllInBounds(ss + [s])
  {
    TotalAppend(ss, [s]);
    TotalOne(s);
    assert AllInBounds(ss + [s]) ==> InBounds((ss + [s])[|ss|]) && forall i :: 0 <= i < |ss| ==> (ss + [s])[i] == ss[i];
  }

  lemma HeadSlice(s: Slice, ss: seq<Slice>)
    ensures Total([s] + ss) == s.n + Total(ss)
    ensures AllInBounds(ss) && InBounds(s) <==> AllInBounds([s] + ss)
  {
    TotalAppend([s], ss);
    TotalOne(s);
    assert AllInBounds([s] + ss) ==> InBounds(([s] + ss)[0]) && forall i :: 0 <= i < |ss| ==> ([s] + ss)[i + 1] == ss[i];
  }

  lemma BothInBounds(ss: seq<Slice>, ts: seq<Slice>)
    requires AllInBounds(ss) && AllInBounds(ts)
    ensures AllInBounds(ss + ts) && Total(ss + ts) == Total(ss) + Total(ts)
  {
    TotalAppend(ss, ts);
  }

  lemma BackingPrefix(ss: seq<Slice>, i: nat)
    requires i <= |ss|
    ensures Backing(ss[..i]) <= Backing(ss) && (i < |ss| && ss[i].mem != null ==> ss[i].mem in Backing(ss))
  {
  }

  // memcpy of one slice to position pos of str.
  method CopySlice(s: Slice, str: array<Byte>, pos: nat)
    requires InBounds(s) && pos + s.n <= str.Length && s.mem != str
    modifies str
    ensures str[..pos + s.n] == old(str[..pos]) + Bytes1(s)
  {
    forall j | 0 <= j < s.n {
      str[pos + j] := s.mem[s.off + j];
    }
  }

  class Iovs {
    // The buffer's cap slots, and the slot of whatever memory follows them.
    var iovs: array<Slice>
    var low: nat
    var len: nat
    var cap: nat
    var iolen: nat
    // The slices held, in order.
    ghost var contents: seq<Slice>

    ghost predicate Valid()
      reads this, iovs
    {
      && cap + 1 == iovs.Length && low + len <= cap + 1 && len == |contents|
      && AllInBounds(contents)
      && iolen == Total(contents)
      && forall k :: low <= k < low + len ==> iovs[k] == contents[k - low]
    }

    // Every slice lies in the buffer itself.
    ghost predicate Inside()
      reads this
    {
      low + len <= cap
    }

    // nftp_iovs_alloc
    constructor ()
      ensures Valid() && fresh(iovs) && contents == [] && cap == SIZE == 32 && low == SIZE / 3 == 10
    {
      iovs := new Slice[SIZE + 1](_ => Slice(null, 0, 0));
      cap, len, low, iolen, contents := SIZE, 0, SIZE / 3, 0, [];
    }

    // At the tail the code lets low + len == cap through: that push, and no other, leaves the buffer.
    method Push(s: Slice, flag: int) returns (rv: int)
      requires Valid() && InBounds(s)
      modifies this, iovs
      ensures Valid() && iovs == old(iovs) && cap == old(cap)
      ensures rv == if flag == HEAD then (if old(low) == 0 then ERR_OVERFLOW else OK)
                    else if flag == TAIL then (if old(Inside()) then OK else ERR_OVERFLOW)
                    else ERR_FLAG
      ensures contents == if rv != OK then old(contents)
                          else if flag == HEAD then [s] + old(contents) else old(contents) + [s]
      ensures low == if rv == OK && flag == HEAD then old(low) - 1 else old(low)
      ensures Inside() <==> old(Inside()) && !(flag == TAIL && old(low + len) == cap)
    {
      hide AllInBounds;
      hide InBounds;
      hide Total;
      if flag == HEAD {
        if low == 0 {
          return ERR_OVERFLOW;
        }
        HeadSlice(s, contents);
        low := low - 1;
        iovs[low] := s;
        contents := [s] + contents;
      } else if flag == TAIL {
        if low + len > cap {
          return ERR_OVERFLOW;
        }
        TailSlice(contents, s);
        iovs[low + len] := s;
        contents := contents + [s];
      } else {
        return ERR_FLAG;
      }
      len := len + 1;
      iolen := iolen + s.n;
      return OK;
    }

    method Append(s: Slice) returns (rv: int)
      requires Valid() && InBounds(s) && low + len < cap
      modifies this, iovs
      ensures Valid() && iovs == old(iovs) && cap == old(cap) && low == old(low) && rv == OK
      ensures contents == old(contents) + [s]
    {
      rv := Push(s, TAIL);
    }

    method Pop(flag: int) returns (rv: int, s: Slice)
      requires Valid()
      modifies this, iovs
      ensures Valid() && iovs == old(iovs) && cap == old(cap)
      ensures rv == if old(len) == 0 then ERR_EMPTY else if flag != HEAD && flag != TAIL then ERR_FLAG else OK
      ensures var c := old(contents);
              if rv != OK then contents == c
              else if flag == HEAD then s == c[0] && contents == c[1..]
              else s == c[|c| - 1] && contents == c[..|c| - 1]
    {
      hide AllInBounds;
      hide InBounds;
      hide Total;
      s := Slice(null, 0, 0);
      if len == 0 {
        return ERR_EMPTY, s;
      }
      var at := low;
      if flag == HEAD {
        assert [contents[0]] + contents[1..] == contents;
        HeadSlice(contents[0], contents[1..]);
        low := low + 1;
        contents := contents[1..];
      } else if flag == TAIL {
        assert contents[..len - 1] + [contents[len - 1]] == contents;
        TailSlice(contents[..len - 1], contents[len - 1]);
        at := low + len - 1;
        contents := contents[..len - 1];
      } else {
        return ERR_FLAG, s;
      }
      s := iovs[at];
      iovs[at] := Slice(null, 0, 0);
      len := len - 1;
      iolen := iolen - s.n;
      return OK, s;
    }

    // nftp_iovs_cat: the slices of src after those of this.
    method Cat(src: Iovs) returns (rv: int)
      requires Valid() && src.Valid() && src != this && src.iovs != iovs
      modifies this, iovs
      ensures Valid() && iovs == old(iovs) && cap == old(cap)
      ensures rv == if old(low + len) + src.len > cap then ERR_OVERFLOW else OK
      ensures contents == if rv == OK then old(contents) + src.contents else old(contents)
    {
      hide AllInBounds;
      hide Total;
      if low + len + src.len > cap {
        return ERR_OVERFLOW;
      }
      var idx := low + len;
      for i := 0 to src.len
        modifies iovs
        invariant forall k :: low <= k < idx ==> iovs[k] == contents[k - low]
        invariant forall k :: idx <= k < idx + i ==> iovs[k] == src.contents[k - idx]
      {
        iovs[idx + i] := src.iovs[src.low + i];
      }
      BothInBounds(contents, src.contents);
      contents := contents + src.contents;
      len := len + src.len;
      iolen := iolen + src.iolen;
      return OK;
    }

    // nftp_iovs2stream: only here are the slices read.
    method ToStream() returns (str: array<Byte>)
      requires Valid()
      ensures fresh(str) && str[..] == Gather(contents)
    {
      hide Gather;
      hide Total;
      hide Bytes1;
      GatherLength(contents);
      str := new Byte[iolen](_ => 0);
      var pos := 0;
      GatherNone(contents);
      for i := 0 to len
        invariant str !in Backing(contents)
        invariant AllInBounds(contents[..i]) && pos == Total(contents[..i]) <= str.Length
        invariant str[..pos] == Gather(contents[..i])
      {
        BackingPrefix(contents, i);
        BackingPrefix(contents, i + 1);
        GatherStep(contents, i);
        TotalStep(contents, i);
        CopySlice(iovs[low + i], str, pos);
        pos := pos + iovs[low + i].n;
      }
      assert contents[..len] == contents;
    }
  }
}
