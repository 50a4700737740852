// What every history of calls keeps of the callback registry and of the sessions' bindings into it.
module Registry {
  import opened Options
  import opened Status
  import opened Bytes
  import opened Messages
  import opened Names
  import opened Protocol

  // Slot 0 is "*", the other names are distinct and never "*", and entries are told apart by id.
  ghost predicate RegistryOk(reg: seq<FileCb>) {
    && 0 < |reg| <= FILES && reg[0].fname == STAR
    && forall i, j :: 0 <= i < j < |reg| ==> reg[i].fname != reg[j].fname && reg[i].id != reg[j].id
  }

  // Entry fcb is slot 0, or bears a name whose checksum is the file id.
  ghost predicate Bound(reg: seq<FileCb>, id: u32, fcb: nat) {
    exists k :: 0 <= k < |reg| && reg[k].id == fcb && (k == 0 || Crc(reg[k].fname) == id)
  }

  ghost predicate Sessions(st: State) {
    forall id :: id in st.files ==> CtxOk(st.files[id]) && Bound(st.reg, id, st.files[id].fcb)
  }

  ghost predicate WellFormed(st: State) {
    && st.bs > 0 && RegistryOk(st.reg) && Sessions(st)
    && forall i :: 0 <= i < |st.reg| ==> st.reg[i].id < st.ids
  }

  lemma WellFormedProper(st: State)
    requires WellFormed(st)
    ensures Proper(st)
  {
  }

  lemma DroppedKeeps(reg: seq<FileCb>, i: nat)
    requires RegistryOk(reg) && 0 < i < |reg|
    ensures RegistryOk(Dropped(reg, i)) && forall j :: 0 <= j < |Dropped(reg, i)| ==> Dropped(reg, i)[j] in reg
    ensures forall id, fcb :: Bound(reg, id, fcb) && fcb != reg[i].id ==> Bound(Dropped(reg, i), id, fcb)
  {
    hide Crc;
    var d := Dropped(reg, i);
    forall id, fcb | Bound(reg, id, fcb) && fcb != reg[i].id
      ensures Bound(d, id, fcb)
    {
      var k :| 0 <= k < |reg| && reg[k].id == fcb && (k == 0 || Crc(reg[k].fname) == id);
      var k' := if k < i then k else k - 1;
      assert d[k'] == reg[k];
    }
  }

  lemma BoundByName(reg: seq<FileCb>, i: nat, id: u32)
    requires RegistryOk(reg) && 0 < i < |reg| && Bound(reg, id, reg[i].id)
    ensures Crc(reg[i].fname) == id
  {
    hide Crc;
  }

  // Releasing one session's entry leaves every other session bound.
  lemma ReleasedKeeps(reg: seq<FileCb>, id: u32, fcb: nat)
    requires RegistryOk(reg) && Bound(reg, id, fcb)
    ensures RegistryOk(Released(reg, fcb))
    ensures forall j :: 0 <= j < |Released(reg, fcb)| ==> Released(reg, fcb)[j] in reg
    ensures forall id', fcb' :: id' != id && Bound(reg, id', fcb') ==> Bound(Released(reg, fcb), id', fcb')
  {
    hide Crc;
    hide RegistryOk;
    hide Bound;
    hide Dropped;
    var i := FindId(reg, fcb);
    if 0 < i < |reg| {
      DroppedKeeps(reg, i);
      forall id', fcb' | id' != id && Bound(reg, id', fcb')
        ensures Bound(Released(reg, fcb), id', fcb')
      {
        if fcb' == reg[i].id {
          BoundByName(reg, i, id);
          BoundByName(reg, i, id');
          assert false;
        }
      }
    }
  }

  lemma RegisterKeeps(st: State, fname: Name, cb: nat, arg: int)
    requires WellFormed(st)
    ensures var r := Register(st, fname, cb, arg); WellFormed(r.st) && |st.reg| <= |r.st.reg|
    ensures var r := Register(st, fname, cb, arg); forall i :: 0 <= i < |st.reg| ==> r.st.reg[i].id == st.reg[i].id
  {
    hide Crc;
    hide CtxOk;
    var st' := Register(st, fname, cb, arg).st;
    forall id | id in st.files
      ensures Bound(st'.reg, id, st.files[id].fcb)
    {
      var fcb := st.files[id].fcb;
      assert Bound(st.reg, id, fcb);
      var k :| 0 <= k < |st.reg| && st.reg[k].id == fcb && (k == 0 || Crc(st.reg[k].fname) == id);
      assert st'.reg[k].id == fcb && st'.reg[k].fname == st.reg[k].fname;
    }
  }

  // No live session is bound to an entry of this name.
  ghost predicate Idle(st: State, fname: Name) {
    forall id, k :: id in st.files && 0 <= k < |st.reg| && st.reg[k].id == st.files[id].fcb ==> st.reg[k].fname != fname
  }

  // Unregistering keeps the registry in order and every session bound exactly when the name is one that is
  // refused, or no session is bound to it.
  lemma UnregisterKeeps(st: State, fname: Name)
    requires WellFormed(st)
    ensures WellFormed(Unregister(st, fname).st) <==> fname == STAR || Idle(st, fname)
  {
    hide Crc;
    hide CtxOk;
    hide Idle;
    hide Bound;
    hide Dropped;
    var i := FindName(st.reg, fname, 1);
    if fname != STAR && i < |st.reg| {
      DroppedKeeps(st.reg, i);
      if Idle(st, fname) {
        IdleFree(st, fname, i);
      } else {
        var id := NotIdle(st, fname, i);
        DroppedUnbinds(st.reg, i, id);
      }
    } else {
      AbsentIdle(st, fname);
    }
  }

  lemma IdleFree(st: State, fname: Name, i: nat)
    requires Idle(st, fname) && i < |st.reg| && st.reg[i].fname == fname
    ensures forall id :: id in st.files ==> st.files[id].fcb != st.reg[i].id
  {
  }

  lemma NotIdle(st: State, fname: Name, i: nat) returns (id: u32)
    requires RegistryOk(st.reg) && !Idle(st, fname) && i < |st.reg| && st.reg[i].fname == fname
    ensures id in st.files && st.files[id].fcb == st.reg[i].id
  {
    var d, k :| d in st.files && 0 <= k < |st.reg| && st.reg[k].id == st.files[d].fcb && st.reg[k].fname == fname;
    assert k == i;
    id := d;
  }

  lemma AbsentIdle(st: State, fname: Name)
    requires RegistryOk(st.reg)
    ensures fname != STAR && FindName(st.reg, fname, 1) == |st.reg| ==> Idle(st, fname)
  {
  }

  lemma DroppedUnbinds(reg: seq<FileCb>, i: nat, id: u32)
    requires RegistryOk(reg) && 0 < i < |reg|
    ensures !Bound(Dropped(reg, i), id, reg[i].id)
  {
    hide Crc;
    var d := Dropped(reg, i);
    forall j | 0 <= j < |d|
      ensures d[j].id != reg[i].id
    {
      assert d[j] == reg[if j < i then j else j + 1];
    }
  }

  // HELLO binds the one entry with the file's name, or slot 0 when there is none.
  lemma HelloBinds(st: State, m: Message)
    requires WellFormed(st) && m.Hello? && Acceptable(st, m) && 0 !in st.files
    ensures var fname := CStr(m.fname); var st' := HandleHello(st, m).st;
            && Crc(fname) in st'.files
            && (forall k :: 0 <= k < |st.reg| && st.reg[k].fname == fname ==> st'.files[Crc(fname)].fcb == st.reg[k].id)
            && ((forall k :: 0 <= k < |st.reg| ==> st.reg[k].fname != fname) ==>
                  st'.files[Crc(fname)].fcb == st.reg[0].id)
  {
    hide Crc;
    hide R.Fresh;
    hide Wire;
  }

  lemma BindFrame(st: State, fname: Name)
    requires st.reg != []
    ensures var st' := Bind(st, fname).0; st'.reg != [] && st' == st.(reg := st'.reg, ids := st'.ids)
  {
  }

  lemma BindKeeps(st: State, fname: Name)
    requires WellFormed(st)
    ensures var (st', fcb) := Bind(st, fname);
            WellFormed(st') && Bound(st'.reg, Crc(fname), fcb) && st' == st.(reg := st'.reg, ids := st'.ids)
  {
    hide Crc;
    hide CtxOk;
    var k := LastName(st.reg, fname);
    if k.Some? {
      assert st.reg[k.value].id == st.reg[k.value].id;
    } else {
      RegisterKeeps(st, fname, st.reg[0].cb, st.reg[0].arg);
      assert Register(st, fname, st.reg[0].cb, st.reg[0].arg).st.reg[0].id == st.reg[0].id;
    }
  }

  lemma HelloKeeps(st: State, m: Message)
    requires WellFormed(st) && m.Hello? && Acceptable(st, m)
    ensures WellFormed(HandleHello(st, m).st)
  {
    hide Crc;
    hide Wire;
    hide Register;
    hide Bound;
    hide RegistryOk;
    if 0 !in st.files {
      BindKeeps(st, CStr(m.fname));
    }
  }

  lemma ReceivedKeeps(st: State, m: Message)
    requires WellFormed(st) && m.Block? && m.fileid in st.files && m.blockseq < st.files[m.fileid].cap
    ensures var st' := Received(st, m.fileid, m); WellFormed(st') && st'.reg == st.reg && m.fileid in st'.files
  {
    hide R.Receive;
    hide Bound;
    hide RegistryOk;
  }

  lemma FinishKeeps(st: State, id: u32)
    requires WellFormed(st) && id in st.files
    ensures WellFormed(Finish(st, id).st)
  {
    hide Crc;
    hide Bound;
    hide RegistryOk;
    hide Released;
    assert Bound(st.reg, id, st.files[id].fcb);
    ReleasedKeeps(st.reg, id, st.files[id].fcb);
  }

  lemma BlockKeeps(st: State, m: Message)
    requires WellFormed(st) && m.Block? && Acceptable(st, m)
    ensures WellFormed(HandleBlock(st, m).st)
  {
    hide Received;
    hide Finish;
    hide Bound;
    hide RegistryOk;
    if m.fileid in st.files {
      ReceivedKeeps(st, m);
      FinishKeeps(Received(st, m.fileid, m), m.fileid);
    }
  }

  lemma StopKeeps(st: State, fname: Name)
    requires WellFormed(st)
    ensures WellFormed(RecvStop(st, fname).st)
  {
    hide Crc;
    hide Bound;
    hide RegistryOk;
    hide Released;
    var id := Crc(Basename(fname));
    if id in st.files {
      assert Bound(st.reg, id, st.files[id].fcb);
      ReleasedKeeps(st.reg, id, st.files[id].fcb);
    }
  }

  // The registry that a transfer of fname leaves: an entry registered for it is taken out, but a name nobody
  // registered stays behind in a slot of its own, if there was one free.
  ghost function RegistryAfter(st: State, fname: Name): seq<FileCb>
    requires st.reg != []
  {
    var k := LastName(st.reg, fname);
    if k.Some? then (if k.value == 0 then st.reg else Dropped(st.reg, k.value))
    else if |st.reg| < FILES then st.reg + [FileCb(st.ids, fname, st.reg[0].cb, st.reg[0].arg)]
    else st.reg
  }

  // The entry a transfer of fname is served by: its own, or slot 0.
  ghost function EntryFor(st: State, fname: Name): FileCb
    requires st.reg != []
  {
    var k := LastName(st.reg, fname);
    if k.Some? then st.reg[k.value] else st.reg[0]
  }

  ghost function CallOf(e: FileCb): seq<(nat, int)> {
    if e.cb != 0 then [(e.cb, e.arg)] else []
  }

  // What HELLO binds is that entry, and releasing it leaves that registry.
  lemma BindReleased(st: State, fname: Name)
    requires WellFormed(st)
    ensures var (st', fcb) := Bind(st, fname);
            Called(st'.reg, fcb) == CallOf(EntryFor(st, fname)) && Released(st'.reg, fcb) == RegistryAfter(st, fname)
  {
    hide Crc;
    hide Sessions;
    hide Dropped;
    hide LastName;
    var (st', fcb) := Bind(st, fname);
    var k := LastName(st.reg, fname);
    LastNameHas(st.reg, fname);
    if k.Some? {
      IdIsIndex(st.reg, k.value);
    } else {
      assert FindName(st.reg, fname, 1) == |st.reg|;
      assert st'.reg[0] == st.reg[0];
    }
  }

  lemma LastNameHas(reg: seq<FileCb>, fname: Name)
    ensures var k := LastName(reg, fname);
            if k.Some? then k.value < |reg| && reg[k.value].fname == fname
            else forall j :: 0 <= j < |reg| ==> reg[j].fname != fname
  {
  }

  lemma IdIsIndex(reg: seq<FileCb>, k: nat)
    requires RegistryOk(reg) && k < |reg|
    ensures FindId(reg, reg[k].id) == k
  {
  }

  // ---- Whom a name is served by ----

  ghost predicate HasEntry(reg: seq<FileCb>, fname: Name) {
    exists k :: 0 <= k < |reg| && reg[k].fname == fname
  }

  lemma EntryIs(st: State, k: nat)
    requires RegistryOk(st.reg) && k < |st.reg|
    ensures EntryFor(st, st.reg[k].fname) == st.reg[k]
  {
    LastNameHas(st.reg, st.reg[k].fname);
    hide LastName;
  }

  lemma NoEntryIs(st: State, fname: Name)
    requires RegistryOk(st.reg) && !HasEntry(st.reg, fname)
    ensures EntryFor(st, fname) == st.reg[0]
  {
    LastNameHas(st.reg, fname);
    hide LastName;
  }

  // A name that keeps its entry, or has none, keeps being served by what it was.
  lemma SameEntry(st: State, st': State, g: Name)
    requires RegistryOk(st.reg) && RegistryOk(st'.reg) && st'.reg[0] == st.reg[0]
    requires HasEntry(st'.reg, g) <==> HasEntry(st.reg, g)
    requires forall k :: 0 <= k < |st.reg| && st.reg[k].fname == g ==> st.reg[k] in st'.reg
    ensures EntryFor(st', g) == EntryFor(st, g)
  {
    hide EntryFor;
    if HasEntry(st.reg, g) {
      var k :| 0 <= k < |st.reg| && st.reg[k].fname == g;
      var j :| 0 <= j < |st'.reg| && st'.reg[j] == st.reg[k];
      EntryIs(st, k);
      EntryIs(st', j);
    } else {
      NoEntryIs(st, g);
      NoEntryIs(st', g);
    }
  }

  // Registering "*": from then on every name without an entry of its own runs (cb, arg), and no other name is
  // affected.
  lemma RegisterAll(st: State, cb: nat, arg: int, g: Name)
    requires WellFormed(st)
    ensures var r := Register(st, [0x2A], cb, arg);
            && r.rv == 0 && r.rmsg == None && r.st == st.(reg := r.st.reg) && WellFormed(r.st)
            && (!HasEntry(st.reg, g) ==> CallOf(EntryFor(r.st, g)) == if cb != 0 then [(cb, arg)] else [])
            && (HasEntry(st.reg, g) && g != [0x2A] ==> EntryFor(r.st, g) == EntryFor(st, g))
  {
    hide Crc;
    hide Bound;
    hide CtxOk;
    RegisterKeeps(st, [0x2A], cb, arg);
    var st' := Register(st, [0x2A], cb, arg).st;
    assert |st'.reg| == |st.reg| && forall k :: 0 < k < |st.reg| ==> st'.reg[k] == st.reg[k];
    hide Register;
    hide EntryFor;
    if HasEntry(st.reg, g) && g != [0x2A] {
      var k :| 0 <= k < |st.reg| && st.reg[k].fname == g;
      EntryIs(st, k);
      EntryIs(st', k);
    } else if !HasEntry(st.reg, g) {
      assert !HasEntry(st'.reg, g) by {
        assert forall k :: 0 <= k < |st.reg| ==> st'.reg[k].fname == st.reg[k].fname;
      }
      NoEntryIs(st', g);
    }
  }

  // After init nothing is run for any name; registering "*" makes it the callback of all.
  lemma InitServes(dir: Name, bs: u32, fs: Files, cb: nat, arg: int, g: Name)
    requires bs > 0 && g != [0x2A]
    ensures var st := Init(dir, bs, fs);
            && WellFormed(st) && st.files == map[] && st.senders == map[] && st.calls == []
            && st.dir == dir && st.bs == bs && st.fs == fs
            && CallOf(EntryFor(st, g)) == [] && EntryFor(Register(st, [0x2A], cb, arg).st, g).cb == cb
  {
    hide Crc;
    var st := Init(dir, bs, fs);
    RegistryAlone(st);
    NoEntryIs(st, g);
    NoEntryIs(Register(st, [0x2A], cb, arg).st, g);
    hide EntryFor;
  }

  lemma RegistryAlone(st: State)
    requires |st.reg| == 1 && st.reg[0].fname == STAR && st.files == map[] && st.bs > 0 && st.reg[0].id < st.ids
    ensures WellFormed(st)
  {
  }

  // Registering another name: refused with 17 if it has an entry, with 9 if 32 are in use, and otherwise it
  // runs (cb, arg) from then on, and no other name is affected.
  lemma RegisterOne(st: State, fname: Name, cb: nat, arg: int, g: Name)
    requires WellFormed(st) && fname != [0x2A]
    ensures var r := Register(st, fname, cb, arg);
            && r.rv == (if HasEntry(st.reg, fname) then 17 else if |st.reg| == 32 then 9 else 0)
            && r.rmsg == None && WellFormed(r.st) && r.st == st.(reg := r.st.reg, ids := r.st.ids)
            && (r.rv != 0 ==> r.st == st)
            && (r.rv == 0 ==> CallOf(EntryFor(r.st, fname)) == if cb != 0 then [(cb, arg)] else [])
            && (g != fname ==> EntryFor(r.st, g) == EntryFor(st, g))
  {
    hide Crc;
    hide Bound;
    hide CtxOk;
    RegisterKeeps(st, fname, cb, arg);
    hide EntryFor;
    var r := Register(st, fname, cb, arg);
    assert HasEntry(st.reg, fname) <==> FindName(st.reg, fname, 1) < |st.reg|;
    if r.rv == 0 {
      var n := |st.reg|;
      assert r.st.reg[..n] == st.reg && |r.st.reg| == n + 1;
      EntryIs(r.st, n);
      CallIs(r.st.reg[n]);
      if g != fname {
        assert forall k :: 0 <= k < n ==> r.st.reg[k] == st.reg[k];
        hide Register;
        SameEntry(st, r.st, g);
      }
    }
  }

  lemma CallIs(e: FileCb)
    ensures CallOf(e) == if e.cb != 0 then [(e.cb, e.arg)] else []
  {
  }

  // Unregistering: "*" is refused with 3 and a name without an entry with 17; any other name loses its entry
  // and falls to slot 0, and no other name is affected.
  lemma UnregisterOne(st: State, fname: Name, g: Name)
    requires WellFormed(st)
    ensures var r := Unregister(st, fname);
            && r.rv == (if fname == [0x2A] then 3 else if HasEntry(st.reg, fname) then 0 else 17)
            && r.rmsg == None && RegistryOk(r.st.reg) && r.st == st.(reg := r.st.reg)
            && (r.rv != 0 ==> r.st == st)
            && (r.rv == 0 ==> |r.st.reg| == |st.reg| - 1 && !HasEntry(r.st.reg, fname))
            && (r.rv == 0 ==> EntryFor(r.st, fname) == r.st.reg[0] == st.reg[0])
            && (g != fname ==> EntryFor(r.st, g) == EntryFor(st, g))
  {
    hide Crc;
    hide Bound;
    hide CtxOk;
    hide EntryFor;
    var r, i := Unregister(st, fname), FindName(st.reg, fname, 1);
    assert fname != [0x2A] ==> (HasEntry(st.reg, fname) <==> i < |st.reg|);
    if r.rv == 0 {
      DroppedKeeps(st.reg, i);
      DroppedHas(st.reg, i);
      NoEntryIs(r.st, fname);
      if g != fname {
        SameEntry(st, r.st, g);
      }
    }
  }

  lemma DroppedAt(reg: seq<FileCb>, i: nat)
    requires i < |reg|
    ensures var d := Dropped(reg, i);
            |d| == |reg| - 1 && forall j :: 0 <= j < |d| ==> d[j] == reg[if j < i then j else j + 1]
  {
  }

  lemma DroppedHolds(reg: seq<FileCb>, i: nat, k: nat)
    requires i < |reg| && k < |reg| && k != i
    ensures reg[k] in Dropped(reg, i)
  {
    DroppedAt(reg, i);
    assert Dropped(reg, i)[if k < i then k else k - 1] == reg[k];
  }

  lemma DroppedSame(reg: seq<FileCb>, i: nat, g: Name)
    requires i < |reg| && g != reg[i].fname
    ensures HasEntry(Dropped(reg, i), g) <==> HasEntry(reg, g)
  {
    DroppedAt(reg, i);
    hide Dropped;
    var d := Dropped(reg, i);
    if HasEntry(reg, g) {
      var k :| 0 <= k < |reg| && reg[k].fname == g;
      assert d[if k < i then k else k - 1].fname == g;
    }
    if HasEntry(d, g) {
      var j :| 0 <= j < |d| && d[j].fname == g;
      assert reg[if j < i then j else j + 1].fname == g;
    }
  }

  lemma DroppedHas(reg: seq<FileCb>, i: nat)
    requires RegistryOk(reg) && 0 < i < |reg|
    ensures var d := Dropped(reg, i);
            && d != [] && d[0] == reg[0] && !HasEntry(d, reg[i].fname)
            && (forall k :: 0 <= k < |reg| && k != i ==> reg[k] in d)
            && (forall g :: g != reg[i].fname ==> (HasEntry(d, g) <==> HasEntry(reg, g)))
  {
    DroppedAt(reg, i);
    hide Dropped;
    forall k | 0 <= k < |reg| && k != i
      ensures reg[k] in Dropped(reg, i)
    {
      DroppedHolds(reg, i, k);
    }
    forall g | g != reg[i].fname
      ensures HasEntry(Dropped(reg, i), g) <==> HasEntry(reg, g)
    {
      DroppedSame(reg, i, g);
    }
  }

  // ---- Runs ----

  datatype Op =
    | RegisterOp(fname: Name, cb: nat, arg: int)
    | UnregisterOp(fname: Name)
    | HandleOp(msg: seq<Byte>)
    | MakeOp(fpath: Name, kind: Byte, key: int, n: int)
    | StopOp(fname: Name)

  ghost predicate Allowed(st: State, op: Op) {
    match op
    case RegisterOp(_, _, _) => true
    case UnregisterOp(fname) => fname == STAR || Idle(st, fname)
    case HandleOp(msg) => st.bs > 0 && Sized(msg) && (Parse(msg).Ok? ==> Acceptable(st, Parse(msg).message))
    case MakeOp(fpath, kind, _, n) => st.bs > 0 && Fits(st, fpath, kind, n)
    case StopOp(_) => true
  }

  ghost function Apply(st: State, op: Op): State
    requires Proper(st) && Allowed(st, op)
  {
    match op
    case RegisterOp(fname, cb, arg) => Register(st, fname, cb, arg).st
    case UnregisterOp(fname) => Unregister(st, fname).st
    case HandleOp(msg) => Handle(st, msg).st
    case MakeOp(fpath, kind, key, n) => Maker(st, fpath, kind, key, n).st
    case StopOp(fname) => RecvStop(st, fname).st
  }

  lemma ApplyKeeps(st: State, op: Op)
    requires WellFormed(st) && Allowed(st, op)
    ensures Proper(st) && WellFormed(Apply(st, op))
  {
    hide Crc;
    hide Parse;
    hide Sized;
    hide HandleHello;
    hide HandleBlock;
    hide RegistryOk;
    hide Sessions;
    WellFormedProper(st);
    match op
    case RegisterOp(fname, cb, arg) => RegisterKeeps(st, fname, cb, arg);
    case UnregisterOp(fname) => UnregisterKeeps(st, fname);
    case HandleOp(msg) =>
      if Parse(msg).Ok? {
        var m := Parse(msg).message;
        match m
        case Hello(_, _, _, _) => HelloKeeps(st, m);
        case Ack(_, _) =>
        case Block(_, _, _, _) => BlockKeeps(st, m);
        case Giveme(_, _) =>
      }
    case MakeOp(fpath, kind, key, n) => MakerKeeps(st, fpath, kind, key, n);
    case StopOp(fname) => StopKeeps(st, fname);
  }

  lemma MakerKeeps(st: State, fpath: Name, kind: Byte, key: int, n: int)
    requires WellFormed(st) && Fits(st, fpath, kind, n)
    ensures WellFormed(Maker(st, fpath, kind, key, n).st)
  {
    hide Crc;
    hide RegistryOk;
    hide Bound;
    hide Wire;
    hide B.BlockRead;
  }

  // States that a run of allowed calls goes through.
  ghost predicate Reachable(sts: seq<State>, ops: seq<Op>) {
    && |sts| == |ops| + 1
    && forall k :: 0 <= k < |ops| ==> Proper(sts[k]) && Allowed(sts[k], ops[k]) && sts[k + 1] == Apply(sts[k], ops[k])
  }

  // In every reachable state the registry is in order and every session is bound into it.
  lemma {:induction false} RunsKeep(dir: Name, bs: u32, fs: Files, sts: seq<State>, ops: seq<Op>, n: nat)
    requires bs > 0 && Reachable(sts, ops) && sts[0] == Init(dir, bs, fs) && n < |sts|
    ensures WellFormed(sts[n])
  {
    hide Apply;
    hide Allowed;
    if n == 0 {
    } else {
      RunsKeep(dir, bs, fs, sts, ops, n - 1);
      assert sts[n - 1 + 1] == Apply(sts[n - 1], ops[n - 1]);
      ApplyKeeps(sts[n - 1], ops[n - 1]);
    }
  }
}
