// src/vector.c: a bounded deque kept in a circular array.
module Vectors {
  import opened Status

  datatype Slot<+T> = Null | Entry(value: T)

  // x % cap for an x that has wrapped at most once.
  function Wrap(x: nat, cap: nat): nat
    requires cap > 0 && x < 2 * cap
  {
    if x < cap then x else x - cap
  }

  lemma ModIsWrap(x: nat, cap: nat)
    requires cap > 0 && x < 2 * cap
    ensures x % cap == Wrap(x, cap)
  {
    var q, r := x / cap, x % cap;
    assert x == cap * q + r && 0 <= r < cap;
    if q >= 2 {
      ProductGrows(cap, q);
    }
  }

  lemma ProductGrows(cap: nat, q: nat)
    requires q >= 2
    ensures cap * q >= 2 * cap
  {
  }

  // The logical position of array index p when position 0 is at index low.
  function Unwrap(p: nat, low: nat, cap: nat): nat
    requires p < cap && low < cap
  {
    if p >= low then p - low else p + cap - low
  }

  // One array index holds each logical position.
  lemma Position(p: nat, k: nat, low: nat, cap: nat)
    requires low < cap && p < cap && k < cap && (p == low + k || p == low + k - cap)
    ensures Unwrap(p, low, cap) == k
    ensures forall q :: 0 <= q < cap && Unwrap(q, low, cap) == k ==> q == p
  {
  }

  // Taking low one index down moves every position up by one.
  lemma LowDown(low: nat, low': nat, cap: nat)
    requires low < cap && low' < cap && (low == low' + 1 || low == low' + 1 - cap)
    ensures forall q :: 0 <= q < cap ==>
              Unwrap(q, low', cap) == if Unwrap(q, low, cap) == cap - 1 then 0 else Unwrap(q, low, cap) + 1
  {
  }

  // Where entry x is first found in s, or |s|.
  function FirstIndex<T(==)>(s: seq<T>, x: T): (i: nat)
    ensures i <= |s| && x !in s[..i] && (i < |s| ==> s[i] == x)
  {
    if s == [] then 0 else if s[0] == x then 0 else 1 + FirstIndex(s[1..], x)
  }

  class Vec<T(==)> {
    var cap: nat
    var len: nat
    var low: nat
    var vec: array<Slot<T>>
    // The logical sequence, front first.
    ghost var contents: seq<T>

    ghost predicate Valid()
      reads this, vec
    {
      && 0 < cap == vec.Length <= TAIL && low < cap && len == |contents| <= cap
      && forall p :: 0 <= p < cap && Unwrap(p, low, cap) < len ==> vec[p] == Entry(contents[Unwrap(p, low, cap)])
    }

    // nftp_vec_alloc
    constructor (sz: int)
      requires sz <= TAIL
      ensures Valid() && fresh(vec) && contents == []
      ensures cap == if sz <= 0 then 32 else sz
    {
      var n := if sz <= 0 then SIZE else sz;
      cap, len, low := n, 0, n / 4;
      vec := new Slot<T>[n](_ => Null);
      contents := [];
    }

    // The array index x % cap.
    method Index(x: nat) returns (p: nat)
      requires cap > 0 && x < 2 * cap
      ensures p < cap && (p == x || p == x - cap)
    {
      ModIsWrap(x, cap);
      p := x % cap;
    }

    method Push(entry: T, flag: int) returns (rv: int)
      requires Valid()
      modifies this, vec
      ensures Valid() && vec == old(vec) && cap == old(cap)
      ensures rv == if |old(contents)| == cap then ERR_OVERFLOW
                    else if flag != HEAD && flag != TAIL then ERR_FLAG else OK
      ensures contents == if rv != OK then old(contents)
                          else if flag == HEAD then [entry] + old(contents) else old(contents) + [entry]
    {
      hide Unwrap;
      var pos := 0;
      if len == cap {
        return ERR_OVERFLOW;
      }
      if flag == HEAD {
        low := Index(low - 1 + cap);
        LowDown(old(low), low, cap);
        pos := low;
        Position(pos, 0, low, cap);
        contents := [entry] + contents;
      } else if flag == TAIL {
        pos := Index(low + len);
        Position(pos, len, low, cap);
        contents := contents + [entry];
      } else {
        return ERR_FLAG;
      }
      len := len + 1;
      vec[pos] := Entry(entry);
      return OK;
    }

    method Pop(flag: int) returns (rv: int, entry: Slot<T>)
      requires Valid()
      modifies this, vec
      ensures Valid() && vec == old(vec) && cap == old(cap)
      ensures rv == if old(contents) == [] then ERR_EMPTY else if flag != HEAD && flag != TAIL then ERR_FLAG else OK
      ensures var s := old(contents);
              if rv != OK then contents == s && entry == Null
              else if flag == HEAD then contents == s[1..] && entry == Entry(s[0])
              else contents == s[..|s| - 1] && entry == Entry(s[|s| - 1])
    {
      hide Unwrap;
      if len == 0 {
        return ERR_EMPTY, Null;
      }
      var pos := 0;
      if flag == HEAD {
        pos := low;
        Position(pos, 0, low, cap);
        low := Index(low + 1);
        LowDown(low, old(low), cap);
        contents := contents[1..];
      } else if flag == TAIL {
        pos := Index(low + len - 1);
        Position(pos, len - 1, low, cap);
        contents := contents[..len - 1];
      } else {
        return ERR_FLAG, Null;
      }
      entry := vec[pos];
      vec[pos] := Null;
      len := len - 1;
      return OK, entry;
    }

    // Index p holds the element at logical position k of s.
    ghost predicate Carries(p: nat, s: seq<T>, k: int)
      requires p < vec.Length
      reads this, vec
    {
      0 <= k < |s| && vec[p] == Entry(s[k])
    }

    // The loop of insert: elements from pos on move one index up, from the back.
    method ShiftUp(pos: nat)
      requires Valid() && pos <= len < cap
      modifies vec
      ensures forall p :: 0 <= p < cap && Unwrap(p, low, cap) <= len && Unwrap(p, low, cap) != pos ==>
                var u := Unwrap(p, low, cap); Carries(p, contents, if u < pos then u else u - 1)
    {
      hide Unwrap;
      var i := low + len;
      while i > low + pos
        modifies vec
        invariant low + pos <= i <= low + len
        invariant forall p :: 0 <= p < cap && Unwrap(p, low, cap) <= len && Unwrap(p, low, cap) != i - low ==>
                    var u := Unwrap(p, low, cap); Carries(p, contents, if u < i - low then u else u - 1)
      {
        var to := Index(i);
        var from := Index(i - 1);
        Position(to, i - low, low, cap);
        Position(from, i - 1 - low, low, cap);
        vec[to] := vec[from];
        i := i - 1;
      }
    }

    // Elements from pos on move one slot up; a position past the end appends.
    method Insert(entry: T, pos: nat) returns (rv: int)
      requires Valid()
      modifies this, vec
      ensures Valid() && vec == old(vec) && cap == old(cap)
      ensures rv == if |old(contents)| == cap then ERR_OVERFLOW else OK
      ensures var s := old(contents); var p := if pos > |s| then |s| else pos;
              contents == if rv != OK then s else s[..p] + [entry] + s[p..]
    {
      if len == cap {
        return ERR_OVERFLOW;
      }
      if pos > len {
        rv := Push(entry, TAIL);
        return;
      }
      PutAt(entry, pos);
      return OK;
    }

    // Room is made at pos, and the entry put there.
    method PutAt(entry: T, pos: nat)
      requires Valid() && pos <= len < cap
      modifies this, vec
      ensures Valid() && vec == old(vec) && cap == old(cap)
      ensures contents == old(contents)[..pos] + [entry] + old(contents)[pos..]
    {
      ShiftUp(pos);
      var at := Index(low + pos);
      vec[at] := Entry(entry);
      contents := contents[..pos] + [entry] + contents[pos..];
      len := len + 1;
    }

    // The loop of delete: elements after pos move one index down, from the front.
    method ShiftDown(pos: nat)
      requires Valid() && pos < len
      modifies vec
      ensures forall p :: 0 <= p < cap && Unwrap(p, low, cap) < len - 1 ==>
                var u := Unwrap(p, low, cap); Carries(p, contents, if u < pos then u else u + 1)
    {
      hide Unwrap;
      var i := low + pos + 1;
      while i < low + len
        modifies vec
        invariant low + pos + 1 <= i <= low + len
        invariant forall p :: 0 <= p < cap && Unwrap(p, low, cap) < len && Unwrap(p, low, cap) != i - low - 1 ==>
                    var u := Unwrap(p, low, cap);
                    Carries(p, contents, if u < pos || u > i - low - 1 then u else u + 1)
      {
        var to := Index(i - 1);
        var from := Index(i);
        Position(to, i - 1 - low, low, cap);
        Position(from, i - low, low, cap);
        vec[to] := vec[from];
        i := i + 1;
      }
    }

    // Elements after pos move one slot down.
    method Delete(pos: int) returns (rv: int, entry: Slot<T>)
      requires Valid()
      modifies this, vec
      ensures Valid() && vec == old(vec) && cap == old(cap)
      ensures rv == if 0 <= pos < |old(contents)| then OK else ERR_OVERFLOW
      ensures var s := old(contents);
              if rv != OK then contents == s && entry == Null
              else contents == s[..pos] + s[pos + 1..] && entry == Entry(s[pos])
    {
      if pos < 0 || pos > len - 1 {
        return ERR_OVERFLOW, Null;
      }
      var at := Index(low + pos);
      entry := vec[at];
      ShiftDown(pos);
      contents := contents[..pos] + contents[pos + 1..];
      len := len - 1;
      return OK, entry;
    }

    method Get(idx: int) returns (rv: int, entry: Slot<T>)
      requires Valid()
      ensures rv == if 0 <= idx < |contents| then OK else ERR_OVERFLOW
      ensures entry == if rv == OK then Entry(contents[idx]) else Null
    {
      if idx >= len || idx < 0 {
        return ERR_OVERFLOW, Null;
      }
      var at := Index(low + idx);
      return OK, vec[at];
    }

    method GetIdx(entry: T) returns (rv: int, idx: nat)
      requires Valid()
      ensures rv == if entry in contents then OK else ERR_EMPTY
      ensures rv == OK ==> idx == FirstIndex(contents, entry)
    {
      var i := low;
      while i < low + len
        invariant low <= i <= low + len
        invariant entry !in contents[..i - low]
      {
        var at := Index(i);
        if vec[at] == Entry(entry) {
          assert contents[i - low] == entry;
          idx := Index(i - low);
          return OK, idx;
        }
        i := i + 1;
      }
      return ERR_EMPTY, 0;
    }
  }

  // The forward iterator: HEAD before the first element, TAIL after the last.
  class Iter<T(==)> {
    const matrix: Vec<T>
    var key: int
    var val: Slot<T>

    constructor (v: Vec<T>)
      ensures matrix == v && key == HEAD && val == Null
    {
      matrix, key, val := v, HEAD, Null;
    }

    method Next()
      requires matrix.Valid() && (key == TAIL || HEAD <= key)
      modifies this
      ensures key == if old(key) != TAIL && old(key) + 1 < |matrix.contents| then old(key) + 1 else TAIL
      ensures val == if key == TAIL then Null else Entry(matrix.contents[key])
      ensures HEAD < key
    {
      val := Null;
      if key == TAIL {
      } else {
        key := key + 1;
        var rv, entry := matrix.Get(key);
        val := entry;
        if rv != OK {
          key := TAIL;
        }
      }
    }
  }

  // The loop every user of the iterator writes sees each element once, in order.
  method Walk<T(==)>(v: Vec<T>) returns (seen: seq<T>)
    requires v.Valid()
    ensures seen == v.contents
  {
    seen := [];
    var iter := new Iter(v);
    iter.Next();
    while iter.key != TAIL
      invariant v.Valid() && iter.matrix == v
      invariant iter.key == if |seen| < |v.contents| then |seen| else TAIL
      invariant iter.key != TAIL ==> iter.val == Entry(v.contents[iter.key])
      invariant seen <= v.contents
      decreases |v.contents| - |seen|
    {
      seen := seen + [iter.val.value];
      iter.Next();
    }
  }
}
