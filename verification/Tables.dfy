// The static tables of src/proto.c: sessions and sender paths in hash tables, callbacks in a deque.
module Tables {
  import opened Options
  import opened Status
  import opened Bytes
  import opened Names
  import opened HashTables
  import opened Vectors

  // struct file_cb; cb 0 is the null callback.
  class FileCallback {
    // What the state machine tells entries apart by.
    ghost const id: nat
    const fname: Name
    var cb: nat
    var arg: int

    constructor (ghost id: nat, fname: Name, cb: nat, arg: int)
      ensures this.id == id && this.fname == fname && this.cb == cb && this.arg == arg
    {
      this.id, this.fname, this.cb, this.arg := id, fname, cb, arg;
    }
  }

  // struct nctx. A body that is null is None.
  class Nctx {
    const cap: nat
    const fileid: u32
    const hashcode: u32
    const entries: array<Option<seq<Byte>>>
    var len: int
    var nextid: nat
    var fcb: FileCallback?
    var wfname: Name
    var status: Option<int>

    // nctx_alloc, with the two fields HELLO sets at once.
    constructor (sz: nat, fileid: u32, hashcode: u32)
      ensures cap == sz == entries.Length && this.fileid == fileid && this.hashcode == hashcode
      ensures entries[..] == seq(sz, _ => None) && fresh(entries)
      ensures len == 0 && nextid == 0 && fcb == null && wfname == [] && status == None
    {
      entries := new Option<seq<Byte>>[sz](_ => None);
      cap, this.fileid, this.hashcode := sz, fileid, hashcode;
      len, nextid, fcb, wfname, status := 0, 0, null, [], None;
    }
  }

  predicate SameKey(a: u32, b: u32) {
    a == b
  }

  function Itself(k: u32): u32 {
    k
  }

  lemma KeysAgree(hash: u32 -> nat)
    ensures Agree(hash, SameKey, Itself)
  {
  }

  class TableSet {
    const files: HashTable<u32, Nctx>
    const senderfiles: HashTable<u32, Name>
    const fcbReg: Vec<FileCallback>

    ghost var Repr: set<object>
    // What the three tables hold.
    ghost var sessions: map<u32, Nctx>
    ghost var paths: map<u32, Name>
    ghost var callbacks: seq<FileCallback>

    ghost predicate Separate()
      reads this, Repr
    {
      && files in Repr && senderfiles in Repr && fcbReg in Repr
      && Repr == {this, fcbReg, fcbReg.vec} + files.Repr() + senderfiles.Repr()
      && files.Repr() !! senderfiles.Repr()
      && {this, fcbReg, fcbReg.vec} !! files.Repr() && {this, fcbReg, fcbReg.vec} !! senderfiles.Repr()
    }

    ghost predicate Valid()
      reads this, Repr
      ensures Valid() ==> this in Repr && |callbacks| <= FILES
    {
      && Separate()
      && files.Valid() && (forall k :: files.rep(k) == k) && sessions == files.model.contents
      && senderfiles.Valid() && (forall k :: senderfiles.rep(k) == k) && paths == senderfiles.model.contents
      && fcbReg.Valid() && fcbReg.cap == FILES && callbacks == fcbReg.contents
    }

    static method Setup(hash: u32 -> nat)
      returns (reg: Vec<FileCallback>, fs: HashTable<u32, Nctx>, senders: HashTable<u32, Name>)
      ensures fresh({reg, reg.vec} + fs.Repr() + senders.Repr())
      ensures allocated({reg, reg.vec} + fs.Repr() + senders.Repr()) && fs in fs.Repr() && senders in senders.Repr()
      ensures {reg, reg.vec} !! fs.Repr() && {reg, reg.vec} !! senders.Repr() && fs.Repr() !! senders.Repr()
      ensures reg.Valid() && reg.contents == [] && reg.cap == FILES
      ensures fs.Valid() && (forall k :: fs.rep(k) == k) && fs.model.contents == map[]
      ensures senders.Valid() && (forall k :: senders.rep(k) == k) && senders.model.contents == map[]
    {
      KeysAgree(hash);
      hide Agree;
      hide HashTable.Valid;
      hide Vec.Valid;
      reg := new Vec<FileCallback>(FILES);
      fs := new HashTable<u32, Nctx>(hash, SameKey, Itself, FILES);
      assert reg.Valid() && {reg, reg.vec} !! fs.Repr();
      senders := new HashTable<u32, Name>(hash, SameKey, Itself, FILES);
      assert reg.Valid() && fs.Valid() && fs.Repr() !! senders.Repr();
    }

    // The tables nftp_proto_init sets up, under any hash function.
    constructor (hash: u32 -> nat)
      ensures Valid() && fresh(Repr)
      ensures sessions == map[] && paths == map[] && callbacks == []
    {
      hide HashTable.Valid;
      hide Vec.Valid;
      hide HashTable.Repr;
      var reg, fs, senders := Setup(hash);
      fcbReg, files, senderfiles := reg, fs, senders;
      sessions, paths, callbacks := map[], map[], [];
      ghost var inside := {reg, reg.vec} + fs.Repr() + senders.Repr();
      new;
      assert this !in inside;
      Repr := {this, reg, reg.vec} + fs.Repr() + senders.Repr();
    }

    method InsertFile(id: u32, ctx: Nctx) returns (rv: int)
      requires Valid()
      modifies Repr
      ensures Valid() && fresh(Repr - old(Repr))
      ensures sessions == old(sessions)[id := ctx] && paths == old(paths) && callbacks == old(callbacks)
      ensures rv == if id in old(sessions) then HT_UPDATED else HT_INSERTED
    {
      hide HashTable.Valid;
      rv := files.Insert(id, ctx);
      sessions := sessions[id := ctx];
      Repr := {this, fcbReg, fcbReg.vec} + files.Repr() + senderfiles.Repr();
    }

    method EraseFile(id: u32) returns (rv: int)
      requires Valid()
      modifies Repr
      ensures Valid() && fresh(Repr - old(Repr))
      ensures sessions == old(sessions) - {id} && paths == old(paths) && callbacks == old(callbacks)
      ensures rv == HT_SUCCESS
    {
      hide HashTable.Valid;
      rv := files.Erase(id);
      sessions := sessions - {id};
      Repr := {this, fcbReg, fcbReg.vec} + files.Repr() + senderfiles.Repr();
    }

    method ContainsFile(id: u32) returns (found: bool)
      requires Valid()
      ensures found <==> id in sessions
    {
      hide HashTable.Valid;
      var rv := files.Contains(id);
      found := rv == HT_FOUND;
    }

    method LookupFile(id: u32) returns (ctx: Nctx)
      requires Valid() && id in sessions
      ensures ctx == sessions[id]
    {
      hide HashTable.Valid;
      var v := files.Lookup(id);
      ctx := v.value;
    }

    method InsertSender(id: u32, fpath: Name) returns (rv: int)
      requires Valid()
      modifies Repr
      ensures Valid() && fresh(Repr - old(Repr))
      ensures sessions == old(sessions) && paths == old(paths)[id := fpath] && callbacks == old(callbacks)
      ensures rv == if id in old(paths) then HT_UPDATED else HT_INSERTED
    {
      hide HashTable.Valid;
      rv := senderfiles.Insert(id, fpath);
      paths := paths[id := fpath];
      Repr := {this, fcbReg, fcbReg.vec} + files.Repr() + senderfiles.Repr();
    }

    method EraseSender(id: u32) returns (rv: int)
      requires Valid()
      modifies Repr
      ensures Valid() && fresh(Repr - old(Repr))
      ensures sessions == old(sessions) && paths == old(paths) - {id} && callbacks == old(callbacks)
      ensures rv == HT_SUCCESS
    {
      hide HashTable.Valid;
      rv := senderfiles.Erase(id);
      paths := paths - {id};
      Repr := {this, fcbReg, fcbReg.vec} + files.Repr() + senderfiles.Repr();
    }

    method LookupSender(id: u32) returns (fpath: Option<Name>)
      requires Valid()
      ensures fpath == if id in paths then Some(paths[id]) else None
    {
      hide HashTable.Valid;
      fpath := senderfiles.Lookup(id);
    }

    method PushCallback(fcb: FileCallback) returns (rv: int)
      requires Valid()
      modifies Repr
      ensures Valid() && Repr == old(Repr)
      ensures sessions == old(sessions) && paths == old(paths)
      ensures rv == if |old(callbacks)| == FILES then ERR_OVERFLOW else OK
      ensures callbacks == if rv == OK then old(callbacks) + [fcb] else old(callbacks)
    {
      hide HashTable.Valid;
      hide Vec.Valid;
      rv := fcbReg.Push(fcb, TAIL);
      callbacks := fcbReg.contents;
    }

    method DeleteCallback(i: nat) returns (rv: int)
      requires Valid() && i < |callbacks|
      modifies Repr
      ensures Valid() && Repr == old(Repr) && rv == OK
      ensures sessions == old(sessions) && paths == old(paths)
      ensures callbacks == old(callbacks)[..i] + old(callbacks)[i + 1..]
    {
      hide HashTable.Valid;
      hide Vec.Valid;
      var fcb;
      rv, fcb := fcbReg.Delete(i);
      callbacks := fcbReg.contents;
    }

    method GetCallback(i: nat) returns (fcb: FileCallback)
      requires Valid() && i < |callbacks|
      ensures fcb == callbacks[i]
    {
      hide HashTable.Valid;
      var rv, entry := fcbReg.Get(i);
      fcb := entry.value;
    }

    method CountCallbacks() returns (n: nat)
      requires Valid()
      ensures n == |callbacks|
    {
      hide HashTable.Valid;
      n := fcbReg.len;
    }
  }
}
