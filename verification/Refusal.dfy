// The file id that HELLO's guard looks up by mistake can be made live, and while it is nobody is answered.
module Refusal {
  import opened Options
  import opened Status
  import opened Bytes
  import opened Messages
  import opened Names
  import opened Protocol
  import opened Registry
  import opened Interleaving

  // A HELLO with an empty name opens session 0; from then on every HELLO is refused and changes nothing.
  lemma EmptyNameRefusesAll(st: State, m: Message, m': Message)
    requires Proper(st) && m.Hello? && Acceptable(st, m) && 0 !in st.files && CStr(m.fname) == []
    ensures var r := HandleHello(st, m);
            && r.rv == OK && Proper(r.st) && 0 in r.st.files
            && (m'.Hello? && Acceptable(r.st, m') ==> HandleHello(r.st, m') == Reply(r.st, ERR_HT, None))
  {
    hide Crc;
    hide CStr;
    hide Path;
    hide Wire;
    hide Bind;
    CrcOfNothing();
    HelloSucceeds(st, m);
    HelloEffect(st, m);
  }

  // As it comes in: a stream of fourteen bytes that announces a name of length 0.
  lemma EmptyNameArrives(st: State, key: Byte, blocks: u16, hashcode: u32)
    requires Proper(st) && blocks > 0 && 0 !in st.files && WorkingName(st, []).Some?
    ensures var msg := Wire(Hello(key, blocks, [], hashcode));
            && |msg| == 14 && Sized(msg) && Parse(msg).Ok? && Acceptable(st, Parse(msg).message)
            && Handle(st, msg).rv == OK && 0 in Handle(st, msg).st.files
  {
    hide Crc;
    hide Wire;
    hide HandleHello;
    var m := Hello(key, blocks, [], hashcode);
    RoundTrip(m);
    hide Parse;
    hide Sized;
    assert CStr(m.fname) == [];
    EmptyNameRefusesAll(st, m, m);
  }

  // The calls that end session 0: a stop of a path whose base name has checksum 0, or the block that
  // completes its file.
  ghost predicate EndsZero(st: State, op: Op)
    requires Proper(st) && Allowed(st, op)
  {
    match op
    case StopOp(fname) => Crc(Basename(fname)) == 0
    case HandleOp(msg) =>
      && Parse(msg).Ok? && Parse(msg).message.Block? && Parse(msg).message.fileid == 0
      && Handle(st, msg).rv == OK && Handle(st, msg).rmsg.Some?
    case _ => false
  }

  ghost predicate IsHello(op: Op) {
    op.HandleOp? && Sized(op.msg) && Parse(op.msg).Ok? && Parse(op.msg).message.Hello?
  }

  lemma BlockZero(st: State, m: Message)
    requires Proper(st) && m.Block? && Acceptable(st, m) && 0 in st.files
    ensures var r := HandleBlock(st, m);
            0 in r.st.files <==> !(m.fileid == 0 && r.rv == OK && r.rmsg.Some?)
  {
    hide Crc;
    hide R.Receive;
    hide Path;
    hide Released;
    hide Called;
  }

  // Session 0 lives through every call but those, and while it does a HELLO changes nothing.
  lemma ZeroStays(st: State, op: Op)
    requires Proper(st) && Allowed(st, op) && 0 in st.files
    ensures 0 in Apply(st, op).files <==> !EndsZero(st, op)
    ensures IsHello(op) ==> Handle(st, op.msg) == Reply(st, ERR_HT, None)
  {
    hide Crc;
    hide Basename;
    hide HandleBlock;
    hide Parse;
    hide Sized;
    hide Wire;
    hide B.BlockRead;
    hide Register;
    hide Unregister;
    hide Released;
    hide Path;
    match op
    case RegisterOp(fname, cb, arg) => RegisterFiles(st, fname, cb, arg);
    case UnregisterOp(fname) => UnregisterFiles(st, fname);
    case HandleOp(msg) =>
      if Parse(msg).Ok? && Parse(msg).message.Block? {
        BlockZero(st, Parse(msg).message);
      }
    case MakeOp(_, _, _, _) =>
    case StopOp(_) =>
  }

  lemma RegisterFiles(st: State, fname: Name, cb: nat, arg: int)
    ensures var st' := Register(st, fname, cb, arg).st; st' == st.(reg := st'.reg, ids := st'.ids)
  {
  }

  lemma UnregisterFiles(st: State, fname: Name)
    ensures var st' := Unregister(st, fname).st; st' == st.(reg := st'.reg)
  {
  }

  // Over any run: until one of those calls, id 0 stays live and every HELLO is refused and changes nothing.
  lemma {:induction false} RefusalLasts(sts: seq<State>, ops: seq<Op>, n: nat)
    requires Reachable(sts, ops) && n < |sts| && 0 in sts[0].files
    requires forall k :: 0 <= k < n ==> !EndsZero(sts[k], ops[k])
    ensures 0 in sts[n].files
    ensures n < |ops| && IsHello(ops[n]) ==> Handle(sts[n], ops[n].msg) == Reply(sts[n], ERR_HT, None)
  {
    hide EndsZero;
    hide Apply;
    hide Allowed;
    hide Handle;
    if n == 0 {
    } else {
      RefusalLasts(sts, ops, n - 1);
      ZeroStays(sts[n - 1], ops[n - 1]);
      assert sts[n - 1 + 1] == Apply(sts[n - 1], ops[n - 1]);
    }
    if n < |ops| {
      ZeroStays(sts[n], ops[n]);
    }
  }
}
