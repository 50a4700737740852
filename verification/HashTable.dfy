// hashtable/hashtable.c: separate chaining over singly linked nodes, relinked in place on resize.

// Sizes and costs only: what an operation does to size and capacity, and how many nodes it relinks.
module TableShape {
  const MINIMUM_CAPACITY: nat := 8
  const LOAD_FACTOR: nat := 5
  const GROWTH_FACTOR: nat := 2
  // (1 / 4) in C's integer division.
  const SHRINK_THRESHOLD: nat := 0

  // relinked counts every node moved by a rehash, reserveCost those moved on behalf of reserve.
  datatype Shape = Shape(size: nat, capacity: nat, relinked: nat, inserted: nat, reserveCost: nat)

  function Resize(s: Shape, newCapacity: nat): Shape {
    if newCapacity < MINIMUM_CAPACITY then
      if s.capacity > MINIMUM_CAPACITY then Rehash(s, MINIMUM_CAPACITY) else s
    else Rehash(s, newCapacity)
  }

  function Rehash(s: Shape, newCapacity: nat): Shape {
    s.(capacity := newCapacity, relinked := s.relinked + s.size)
  }

  function Insert(s: Shape, isNew: bool): Shape {
    var g := if s.size == s.capacity then Resize(s, s.size * GROWTH_FACTOR) else s;
    if isNew then g.(size := g.size + 1, inserted := g.inserted + 1) else g
  }

  function Erase(s: Shape, found: bool): Shape {
    if !found || s.size == 0 then s
    else
      var e := s.(size := s.size - 1);
      if e.size == e.capacity * SHRINK_THRESHOLD then Resize(e, e.size * GROWTH_FACTOR) else e
  }

  function Reserve(s: Shape, minimumCapacity: nat): Shape {
    if minimumCapacity > s.capacity * LOAD_FACTOR then
      var r := Resize(s, minimumCapacity / LOAD_FACTOR);
      r.(reserveCost := r.reserveCost + (r.relinked - s.relinked))
    else s
  }

  function Clear(s: Shape): Shape {
    s.(size := 0, capacity := MINIMUM_CAPACITY)
  }

  function Setup(capacity: nat): Shape {
    Shape(0, if capacity < MINIMUM_CAPACITY then MINIMUM_CAPACITY else capacity, 0, 0, 0)
  }

  datatype Op = InsertOp(isNew: bool) | EraseOp(found: bool) | LookupOp | ClearOp | ReserveOp(minimum: nat)

  function Apply(s: Shape, op: Op): Shape {
    match op
    case InsertOp(isNew) => Insert(s, isNew)
    case EraseOp(found) => Erase(s, found)
    case LookupOp => s
    case ClearOp => Clear(s)
    case ReserveOp(minimum) => Reserve(s, minimum)
  }

  function Run(s: Shape, ops: seq<Op>): Shape
    decreases ops
  {
    if ops == [] then s else Run(Apply(s, ops[0]), ops[1..])
  }

  // Both asserts on size and capacity (hashtable.c:333, 338) hold.
  predicate Sound(s: Shape) {
    s.size <= s.capacity && s.capacity >= MINIMUM_CAPACITY
  }

  // Work saved up for the next growth.
  function Potential(s: Shape): nat {
    if 2 * s.size > s.capacity then 2 * s.size - s.capacity else 0
  }

  predicate Paid(s: Shape) {
    s.relinked + Potential(s) <= 2 * s.inserted + s.reserveCost
  }

  lemma StepPaid(s: Shape, op: Op)
    requires Sound(s) && Paid(s)
    ensures Sound(Apply(s, op)) && Paid(Apply(s, op))
  {
    if op.ReserveOp? && op.minimum > s.capacity * LOAD_FACTOR {
      assert op.minimum / LOAD_FACTOR >= s.capacity;
    }
  }

  predicate NoReserve(ops: seq<Op>) {
    forall i :: 0 <= i < |ops| ==> !ops[i].ReserveOp?
  }

  // The sizes in numbers: a full table doubles, the last erasure falls back to 8, reserve asks for a fifth, and
  // every node is relinked when the capacity changes by growth.
  lemma SizesAre(s: Shape, isNew: bool, minimum: nat)
    requires Sound(s)
    ensures var t := Insert(s, isNew);
            && t.size == s.size + (if isNew then 1 else 0)
            && t.capacity == (if s.size == s.capacity then 2 * s.capacity else s.capacity)
            && t.relinked == s.relinked + (if s.size == s.capacity then s.size else 0)
    ensures s.size > 0 ==>
              var t := Erase(s, true);
              t.size == s.size - 1 && t.capacity == (if s.size == 1 then 8 else s.capacity) && t.relinked == s.relinked
    ensures var t := Reserve(s, minimum);
            && t.size == s.size && t.capacity == (if minimum > 5 * s.capacity then minimum / 5 else s.capacity)
            && t.relinked == s.relinked + (if minimum > 5 * s.capacity then s.size else 0)
    ensures Clear(s).size == 0 && Clear(s).capacity == 8 && Clear(s).relinked == s.relinked
    ensures Setup(minimum).capacity == if minimum < 8 then 8 else minimum
  {
    if minimum > 5 * s.capacity {
      assert minimum / 5 >= s.capacity;
    }
  }

  // Over any run from setup, rehashing relinks at most two nodes per new insertion,
  // apart from what reserve itself asked for.
  lemma {:induction false} AmortisedFrom(s: Shape, ops: seq<Op>)
    requires Sound(s) && Paid(s)
    ensures var t := Run(s, ops);
            Sound(t) && t.relinked <= 2 * t.inserted + t.reserveCost
    ensures NoReserve(ops) ==> Run(s, ops).reserveCost == s.reserveCost
    decreases ops
  {
    if ops == [] {
    } else {
      StepPaid(s, ops[0]);
      AmortisedFrom(Apply(s, ops[0]), ops[1..]);
    }
  }

  lemma AmortisedBound(capacity: nat, ops: seq<Op>)
    requires NoReserve(ops)
    ensures var t := Run(Setup(capacity), ops);
            t.relinked <= 2 * t.inserted && t.size <= t.capacity && t.capacity >= MINIMUM_CAPACITY
  {
    AmortisedFrom(Setup(capacity), ops);
  }

  // The shrink threshold being zero, only emptying the table ever lowers its capacity.
  lemma ShrinksExactly(s: Shape, op: Op)
    requires Sound(s)
    ensures Apply(s, op).capacity < s.capacity
       <==> s.capacity > MINIMUM_CAPACITY && (op.ClearOp? || (op.EraseOp? && op.found && s.size == 1))
  {
  }
}

module HashTables {
  import opened Options
  import opened TableShape

  const HT_SUCCESS := 0
  const HT_UPDATED := 1
  const HT_INSERTED := 0
  const HT_NOT_FOUND := 0
  const HT_FOUND := 1

  class Node<K, V> {
    const key: K
    var value: V
    var next: Node?<K, V>

    constructor (key: K, value: V, next: Node?<K, V>)
      ensures this.key == key && this.value == value && this.next == next
    {
      this.key := key;
      this.value := value;
      this.next := next;
    }
  }

  function At<K, V>(s: seq<Node<K, V>>, i: nat): Node?<K, V> {
    if i < |s| then s[i] else null
  }

  // first heads a null-terminated list of exactly the nodes of s, in order.
  ghost predicate Linked<K, V>(first: Node?<K, V>, s: seq<Node<K, V>>)
    reads NodesOf(s)`next
  {
    first == At(s, 0) && forall i {:trigger s[i].next} :: 0 <= i < |s| ==> s[i].next == At(s, i + 1)
  }

  ghost predicate Distinct<T>(s: seq<T>) {
    forall i, j :: 0 <= i < j < |s| ==> s[i] != s[j]
  }

  ghost function NodesOf<K, V>(s: seq<Node<K, V>>): set<Node<K, V>> {
    set n | n in s
  }

  lemma NodesGrow<K, V>(s: seq<Node<K, V>>, i: nat)
    requires i < |s|
    ensures NodesOf(s[..i + 1]) == NodesOf(s[..i]) + {s[i]}
  {
    assert s[..i + 1] == s[..i] + [s[i]];
  }

  lemma NodesNone<K, V>(s: seq<Node<K, V>>, ms: set<Node<K, V>>)
    ensures ms + NodesOf(s[..0]) == ms
  {
  }

  lemma NodesStep<K, V>(s: seq<Node<K, V>>, ms: set<Node<K, V>>, i: nat)
    requires i < |s| && Distinct(s) && forall n :: n in s ==> n !in ms
    ensures s[i] !in ms + NodesOf(s[..i]) && s[i] !in NodesOf(s[i + 1..])
    ensures ms + NodesOf(s[..i]) + {s[i]} == ms + NodesOf(s[..i + 1])
  {
    NodesGrow(s, i);
  }

  lemma WithoutAt<K, V>(s: seq<Node<K, V>>, i: nat)
    requires i < |s| && Distinct(s)
    ensures var t := s[..i] + s[i + 1..];
            && Distinct(t) && s[i] !in t
            && (forall n :: n in s ==> n in t || n == s[i]) && (forall n :: n in t ==> n in s)
  {
  }

  lemma LinkedAt<K, V>(first: Node?<K, V>, s: seq<Node<K, V>>, i: nat)
    requires Linked(first, s)
    ensures first == At(s, 0) && (i < |s| ==> s[i].next == At(s, i + 1))
  {
  }

  lemma LinkedTail<K, V>(node: Node<K, V>, s: seq<Node<K, V>>, i: nat)
    requires i <= |s| && Linked(node, s[i..])
    ensures i < |s| && node == s[i] && Linked(node.next, s[i + 1..])
  {
    assert s[i + 1..] == s[i..][1..];
  }

  lemma LinkedEnd<K, V>(s: seq<Node<K, V>>, i: nat)
    requires i <= |s| && Linked(null, s[i..])
    ensures s[..i] == s && i == |s|
  {
  }

  lemma {:induction false} DistinctCount<K, V>(s: seq<Node<K, V>>)
    requires Distinct(s)
    ensures |NodesOf(s)| == |s|
    decreases s
  {
    if s == [] {
    } else {
      var n := |s| - 1;
      NodesGrow(s, n);
      assert s[..n + 1] == s;
      DistinctCount(s[..n]);
    }
  }

  // compare is the equivalence "same representative", and hash respects it.
  ghost predicate Agree<K(!new)>(hash: K -> nat, compare: (K, K) -> bool, rep: K -> K) {
    && (forall a, b :: compare(a, b) <==> rep(a) == rep(b))
    && (forall a {:trigger rep(a)} :: hash(rep(a)) == hash(a))
  }

  // What a table stands for: its nodes, where each key's node is, the finite map from
  // representatives to values, and the two counts its cost is measured against.
  datatype Model<K, V> = Model(members: set<Node<K, V>>, located: map<K, Node<K, V>>, contents: map<K, V>,
                               inserted: nat, reserveCost: nat)

  // All a caller can observe of a table, with its cost.
  datatype TableView<K, V> = TableView(contents: map<K, V>, shape: Shape)

  ghost function ViewOf<K, V>(m: Model<K, V>, size: nat, capacity: nat, relinked: nat): TableView<K, V> {
    TableView(m.contents, TableShape.Shape(size, capacity, relinked, m.inserted, m.reserveCost))
  }

  ghost function InsertView<K, V>(v: TableView<K, V>, k: K, x: V): TableView<K, V> {
    TableView(v.contents[k := x], TableShape.Insert(v.shape, k !in v.contents))
  }

  ghost function EraseView<K, V>(v: TableView<K, V>, k: K): TableView<K, V> {
    TableView(v.contents - {k}, TableShape.Erase(v.shape, k in v.contents))
  }

  ghost function ReserveView<K, V>(v: TableView<K, V>, minimumCapacity: nat): TableView<K, V> {
    v.(shape := TableShape.Reserve(v.shape, minimumCapacity))
  }

  ghost function ClearView<K, V>(v: TableView<K, V>): TableView<K, V> {
    TableView(map[], TableShape.Clear(v.shape))
  }

  ghost function GrowView<K, V>(v: TableView<K, V>): TableView<K, V> {
    var s := v.shape;
    v.(shape := if s.size == s.capacity then TableShape.Resize(s, s.size * GROWTH_FACTOR) else s)
  }

  lemma GrowThenPut<K, V>(v: TableView<K, V>, k: K, x: V)
    ensures PutView(GrowView(v), k, x) == InsertView(v, k, x) && GrowView(v).contents == v.contents
  {
  }

  ghost function LessView<K, V>(v: TableView<K, V>, k: K): TableView<K, V> {
    TableView(v.contents - {k},
              if k in v.contents && v.shape.size > 0 then v.shape.(size := v.shape.size - 1) else v.shape)
  }

  ghost function ShrinkView<K, V>(v: TableView<K, V>): TableView<K, V> {
    var s := v.shape;
    v.(shape := if s.size == s.capacity * SHRINK_THRESHOLD then TableShape.Resize(s, s.size * GROWTH_FACTOR) else s)
  }

  lemma InsertContents<K, V>(v: TableView<K, V>, k: K, x: V)
    ensures InsertView(v, k, x).contents == v.contents[k := x]
  {
  }

  lemma EraseContents<K, V>(v: TableView<K, V>, k: K)
    ensures EraseView(v, k).contents == v.contents - {k}
  {
  }

  lemma LessThenShrink<K, V>(v: TableView<K, V>, k: K)
    ensures k in v.contents && v.shape.size > 0 ==> ShrinkView(LessView(v, k)) == EraseView(v, k)
    ensures k !in v.contents ==> EraseView(v, k) == v == LessView(v, k)
  {
    assert k !in v.contents ==> v.contents - {k} == v.contents;
  }

  ghost function PutView<K, V>(v: TableView<K, V>, k: K, x: V): TableView<K, V> {
    TableView(v.contents[k := x],
         if k in v.contents then v.shape else v.shape.(size := v.shape.size + 1, inserted := v.shape.inserted + 1))
  }

  class HashTable<K(!new), V> {
    const hash: K -> nat
    const compare: (K, K) -> bool
    // A representative of each class of keys that compare equal.
    ghost const rep: K -> K

    var size: nat
    var threshold: nat
    var capacity: nat
    var nodes: array<Node?<K, V>>

    ghost var chains: seq<seq<Node<K, V>>>
    ghost var model: Model<K, V>
    ghost var relinked: nat

    function Bucket(key: K): nat
      requires capacity > 0
      reads `capacity
    {
      hash(key) % capacity
    }

    lemma ViewIs()
      ensures View().contents == model.contents
      ensures Shape().size == size && Shape().capacity == capacity
    {
    }

    ghost function Shape(): Shape
      reads this
    {
      View().shape
    }

    // Bucket b heads a list of distinct nodes of ms, all of which hash to b.
    ghost predicate BucketOk(b: nat, ms: set<Node<K, V>>)
      requires b < nodes.Length == |chains| && capacity > 0
      reads `capacity, `chains, `nodes, nodes, ms`next
    {
      && (forall n :: n in chains[b] ==> n in ms && Bucket(n.key) == b)
      && Distinct(chains[b])
      && Linked(nodes[b], chains[b])
    }

    // The array holds exactly the nodes of ms, each in the chain of its own bucket.
    ghost predicate Holds(ms: set<Node<K, V>>)
      reads `capacity, `chains, `nodes, nodes, ms`next
    {
      && capacity == nodes.Length == |chains| && capacity > 0
      && (forall b :: 0 <= b < capacity ==> BucketOk(b, ms))
      && (forall n :: n in ms ==> n in chains[Bucket(n.key)])
    }

    // located finds each node under the representative of its key, so no two keys compare equal,
    // and contents gives its value.
    ghost predicate ModelOk(m: Model<K, V>)
      reads m.members`value
    {
      && |m.members| == |m.located| && m.contents.Keys == m.located.Keys
      && (forall n :: n in m.members ==> rep(n.key) in m.located && m.located[rep(n.key)] == n)
      && (forall k :: k in m.located ==> m.located[k] in m.members && rep(m.located[k].key) == k)
      && (forall k :: k in m.located ==> m.contents[k] == m.located[k].value)
    }

    ghost function View(): TableView<K, V>
      reads this
    {
      ViewOf(model, size, capacity, relinked)
    }

    ghost function Repr(): set<object>
      reads this
    {
      {this, nodes} + model.members
    }

    ghost predicate Valid()
      reads this, Repr()
    {
      && Agree(hash, compare, rep)
      && Sound(Shape())
      && threshold == capacity * LOAD_FACTOR
      && size == |model.members|
      && Holds(model.members)
      && ModelOk(model)
    }

    // ht_setup, with the hash and the comparison the caller wants.
    constructor (hash: K -> nat, compare: (K, K) -> bool, ghost rep: K -> K, capacity: nat)
      requires Agree(hash, compare, rep)
      ensures Valid() && fresh(Repr()) && model.contents == map[] && Shape() == Setup(capacity)
      ensures this.hash == hash && this.compare == compare && this.rep == rep
    {
      hide Agree;
      this.hash, this.compare, this.rep := hash, compare, rep;
      var c := if capacity < MINIMUM_CAPACITY then MINIMUM_CAPACITY else capacity;
      size, relinked, model := 0, 0, Model({}, map[], map[], 0, 0);
      nodes := new Node?<K, V>[0];
      new;
      hide Holds;
      Allocate(c);
    }

    // _ht_allocate
    method Allocate(newCapacity: nat)
      requires newCapacity > 0
      modifies this`nodes, this`capacity, this`threshold, this`chains
      ensures fresh(nodes) && nodes.Length == capacity == newCapacity
      ensures threshold == newCapacity * LOAD_FACTOR
      ensures Holds({})
    {
      nodes := new Node?<K, V>[newCapacity](_ => null);
      capacity := newCapacity;
      threshold := newCapacity * LOAD_FACTOR;
      chains := seq(newCapacity, _ => []);
    }

    // Hang a node onto the front of its bucket.
    method Link(node: Node<K, V>, ghost ms: set<Node<K, V>>)
      requires Holds(ms) && node !in ms
      modifies this`chains, nodes, node`next
      ensures Holds(ms + {node})
    {
      var index := Bucket(node.key);
      node.next := nodes[index];
      nodes[index] := node;
      chains := chains[index := [node] + chains[index]];
      forall b | 0 <= b < capacity
        ensures BucketOk(b, ms + {node})
      {
        assert old(BucketOk(b, ms));
      }
    }

    // The inner loop of _ht_rehash: the nodes of one old chain move to their new buckets.
    method MoveChain(head: Node?<K, V>, ghost s: seq<Node<K, V>>, ghost ms: set<Node<K, V>>)
      requires Holds(ms) && Linked(head, s) && Distinct(s) && forall n :: n in s ==> n !in ms
      modifies this`chains, this`relinked, nodes, s`next
      ensures Holds(ms + NodesOf(s))
      ensures relinked == old(relinked) + |s|
    {
      hide Holds;
      hide Linked;
      var node := head;
      ghost var i := 0;
      NodesNone(s, ms);
      assert s[0..] == s;
      while node != null
        invariant 0 <= i <= |s| && Linked(node, s[i..])
        invariant Holds(ms + NodesOf(s[..i]))
        invariant relinked == old(relinked) + i
        decreases |s| - i
      {
        LinkedTail(node, s, i);
        NodesStep(s, ms, i);
        var next := node.next;
        Link(node, ms + NodesOf(s[..i]));
        relinked := relinked + 1;
        node, i := next, i + 1;
      }
      LinkedEnd(s, i);
    }

    // The chains of an array of |oldChains| buckets holding exactly ms.
    ghost predicate Partition(oldChains: seq<seq<Node<K, V>>>, ms: set<Node<K, V>>) {
      && |oldChains| > 0
      && (forall b, n :: 0 <= b < |oldChains| && n in oldChains[b] ==> n in ms && hash(n.key) % |oldChains| == b)
      && (forall b :: 0 <= b < |oldChains| ==> Distinct(oldChains[b]))
      && (forall n :: n in ms ==> n in oldChains[hash(n.key) % |oldChains|])
    }

    // The nodes of the first c buckets.
    ghost function Below(m: nat, ms: set<Node<K, V>>, c: nat): set<Node<K, V>>
      requires m > 0
    {
      set n | n in ms && hash(n.key) % m < c
    }

    lemma BelowNext(oldChains: seq<seq<Node<K, V>>>, ms: set<Node<K, V>>, c: nat)
      requires Partition(oldChains, ms) && c < |oldChains|
      ensures var m, s := |oldChains|, oldChains[c];
              && Below(m, ms, c) + NodesOf(s) == Below(m, ms, c + 1)
              && |Below(m, ms, c + 1)| == |Below(m, ms, c)| + |s|
              && forall n :: n in s ==> n !in Below(m, ms, c)
      ensures forall b, n :: 0 <= b < |oldChains| && b != c && n in oldChains[b] ==> n !in oldChains[c]
    {
      var m, s := |oldChains|, oldChains[c];
      DistinctCount(s);
      assert Below(m, ms, c) + NodesOf(s) == Below(m, ms, c + 1);
      assert Below(m, ms, c) !! NodesOf(s);
    }

    lemma BelowEnds(oldChains: seq<seq<Node<K, V>>>, ms: set<Node<K, V>>)
      requires Partition(oldChains, ms)
      ensures |oldChains| > 0 && Below(|oldChains|, ms, 0) == {} && Below(|oldChains|, ms, |oldChains|) == ms
    {
    }

    ghost function From(m: nat, ms: set<Node<K, V>>, c: nat): set<Node<K, V>>
      requires m > 0
    {
      set n | n in ms && hash(n.key) % m >= c
    }

    // The old array still heads its chains from bucket c on.
    ghost predicate StillLinked(was: array<Node?<K, V>>, oldChains: seq<seq<Node<K, V>>>, ms: set<Node<K, V>>, c: nat)
      requires Partition(oldChains, ms) && was.Length == |oldChains|
      reads was, From(|oldChains|, ms, c)`next
    {
      forall b :: c <= b < was.Length ==> Linked(was[b], oldChains[b])
    }

    // Rehashing has reached old bucket c, having started with the count at base.
    ghost predicate Midway(was: array<Node?<K, V>>, oldChains: seq<seq<Node<K, V>>>, ms: set<Node<K, V>>,
                           c: nat, base: nat)
      reads this, nodes, was, ms`next
    {
      && was != nodes && was.Length == |oldChains| && Partition(oldChains, ms)
      && StillLinked(was, oldChains, ms, c)
      && Holds(Below(|oldChains|, ms, c))
      && relinked == base + |Below(|oldChains|, ms, c)|
    }

    lemma MidwayAt(was: array<Node?<K, V>>, oldChains: seq<seq<Node<K, V>>>, ms: set<Node<K, V>>, c: nat, base: nat)
      requires Midway(was, oldChains, ms, c, base) && c < was.Length
      ensures StillLinked(was, oldChains, ms, c + 1)
      ensures Linked(was[c], oldChains[c]) && Distinct(oldChains[c])
      ensures forall n :: n in oldChains[c] ==> n in ms
      ensures forall n :: n in From(|oldChains|, ms, c + 1) ==> n !in oldChains[c]
    {
      hide Holds;
      hide Below;
      hide Linked;
    }

    // One turn of the outer loop of _ht_rehash.
    method MoveBucket(was: array<Node?<K, V>>, c: nat, ghost oldChains: seq<seq<Node<K, V>>>,
                      ghost ms: set<Node<K, V>>, ghost base: nat)
      requires Midway(was, oldChains, ms, c, base) && c < was.Length
      modifies this`chains, this`relinked, nodes, ms`next
      ensures Midway(was, oldChains, ms, c + 1, base)
    {
      hide Holds;
      hide Below;
      hide Linked;
      hide Distinct;
      hide StillLinked;
      hide NodesOf;
      MidwayAt(was, oldChains, ms, c, base);
      BelowNext(oldChains, ms, c);
      MoveChain(was[c], oldChains[c], Below(was.Length, ms, c));
    }

    lemma MidwayEnd(was: array<Node?<K, V>>, oldChains: seq<seq<Node<K, V>>>, ms: set<Node<K, V>>, base: nat)
      requires Midway(was, oldChains, ms, was.Length, base)
      ensures Holds(ms) && relinked == base + |ms|
    {
      hide Holds;
      BelowEnds(oldChains, ms);
    }

    // _ht_rehash: every node of the old chains is relinked into its new bucket, none is lost or added.
    method Rehash(was: array<Node?<K, V>>, ghost oldChains: seq<seq<Node<K, V>>>, ghost ms: set<Node<K, V>>)
      requires Midway(was, oldChains, ms, 0, relinked)
      modifies this`chains, this`relinked, nodes, ms`next
      ensures Holds(ms)
      ensures relinked == old(relinked) + |ms|
    {
      hide *;
      var chain := 0;
      while chain < was.Length
        invariant 0 <= chain <= was.Length
        invariant Midway(was, oldChains, ms, chain, old(relinked))
      {
        MoveBucket(was, chain, oldChains, ms, old(relinked));
        chain := chain + 1;
      }
      MidwayEnd(was, oldChains, ms, old(relinked));
    }

    lemma StartRehash(was: array<Node?<K, V>>, oldChains: seq<seq<Node<K, V>>>, ms: set<Node<K, V>>)
      requires was != nodes && was.Length == |oldChains| && Partition(oldChains, ms)
      requires StillLinked(was, oldChains, ms, 0) && Holds({})
      ensures Midway(was, oldChains, ms, 0, relinked)
    {
      hide Holds;
      hide StillLinked;
      BelowEnds(oldChains, ms);
    }

    lemma OldArray(was: array<Node?<K, V>>)
      requires Holds(model.members) && was == nodes
      ensures Partition(chains, model.members) && was.Length == |chains| && StillLinked(was, chains, model.members, 0)
    {
      hide Linked;
      hide Distinct;
      forall b | 0 <= b < capacity
        ensures Linked(was[b], chains[b]) && Distinct(chains[b])
        ensures forall n :: n in chains[b] ==> n in model.members && hash(n.key) % |chains| == b
      {
        assert BucketOk(b, model.members);
      }
    }

    // Swap in an array of the given capacity and rehash into it.
    method Relocate(newCapacity: nat)
      requires Holds(model.members) && newCapacity > 0
      modifies `nodes, `capacity, `threshold, `chains, `relinked, model.members`next
      ensures Holds(model.members) && fresh(nodes) && capacity == newCapacity && threshold == newCapacity * LOAD_FACTOR
      ensures relinked == old(relinked) + |model.members|
    {
      hide Holds;
      hide Distinct;
      hide BucketOk;
      hide Midway;
      var was := nodes;
      ghost var oldChains := chains;
      OldArray(was);
      Allocate(newCapacity);
      StartRehash(was, oldChains, model.members);
      Rehash(was, oldChains, model.members);
    }

    // _ht_resize
    method Resize(newCapacity: nat)
      requires Valid() && Sound(TableShape.Resize(Shape(), newCapacity))
      modifies Repr()
      ensures Valid() && fresh(Repr() - old(Repr()))
      ensures Shape() == TableShape.Resize(old(Shape()), newCapacity)
      ensures model.contents == old(model.contents)
    {
      hide Agree;
      hide Holds;
      hide ModelOk;
      if newCapacity >= MINIMUM_CAPACITY || capacity > MINIMUM_CAPACITY {
        Relocate(if newCapacity < MINIMUM_CAPACITY then MINIMUM_CAPACITY else newCapacity);
      }
    }

    // The search loop shared by insert, contains, lookup and erase: the position of the first equal key.
    method Find(key: K, ghost b: nat) returns (previous: Node?<K, V>, node: Node?<K, V>, ghost i: nat)
      requires Valid() && b == Bucket(key)
      ensures i <= |chains[b]| && node == At(chains[b], i)
      ensures previous == if i == 0 then null else chains[b][i - 1]
      ensures node == null ==> rep(key) !in model.located && rep(key) !in model.contents
      ensures node != null ==> node in model.members && rep(node.key) == rep(key)
      ensures node != null ==> rep(key) in model.contents && model.contents[rep(key)] == node.value
    {
      assert BucketOk(b, model.members);
      previous, node, i := null, nodes[Bucket(key)], 0;
      while node != null && !compare(key, node.key)
        invariant i <= |chains[b]| && node == At(chains[b], i)
        invariant previous == if i == 0 then null else chains[b][i - 1]
        invariant forall j :: 0 <= j < i ==> rep(chains[b][j].key) != rep(key)
        decreases |chains[b]| - i
      {
        previous, node, i := node, node.next, i + 1;
      }
      if rep(key) in model.located {
        var n := model.located[rep(key)];
        assert Bucket(n.key) == b;
      }
    }

    // _ht_push_front: a node already pointing at its bucket's head becomes the head.
    method Hang(n: Node<K, V>, ghost ms: set<Node<K, V>>)
      requires Holds(ms) && n !in ms && n.next == nodes[Bucket(n.key)]
      modifies `chains, nodes
      ensures Holds(ms + {n})
    {
      var index := Bucket(n.key);
      nodes[index] := n;
      chains := chains[index := [n] + chains[index]];
      forall b | 0 <= b < capacity
        ensures BucketOk(b, ms + {n})
      {
        assert old(BucketOk(b, ms));
      }
    }

    ghost function With(m: Model<K, V>, node: Node<K, V>, value: V): Model<K, V> {
      var k := rep(node.key);
      m.(members := m.members + {node}, located := m.located[k := node], contents := m.contents[k := value],
         inserted := m.inserted + 1)
    }

    lemma WithOk(m: Model<K, V>, node: Node<K, V>, value: V)
      requires ModelOk(m) && node !in m.members && rep(node.key) !in m.located && value == node.value
      ensures var m' := With(m, node, value);
              ModelOk(m') && |m'.members| == |m.members| + 1 && m'.members == m.members + {node}
    {
    }

    // ht_insert
    method Insert(key: K, value: V) returns (rv: int)
      requires Valid()
      modifies Repr()
      ensures Valid() && fresh(Repr() - old(Repr()))
      ensures View() == InsertView(old(View()), rep(key), value)
      ensures model.contents == old(model.contents)[rep(key) := value]
      ensures rv == if rep(key) in old(model.contents) then HT_UPDATED else HT_INSERTED
    {
      hide Valid;
      hide View;
      hide GrowView;
      hide PutView;
      hide InsertView;
      ViewIs();
      InsertContents(View(), rep(key), value);
      GrowThenPut(View(), rep(key), value);
      Grow();
      rv := Put(key, value);
      ViewIs();
    }

    method Grow()
      requires Valid()
      modifies Repr()
      ensures Valid() && size < capacity
      ensures fresh(Repr() - old(Repr())) && model.contents == old(model.contents)
      ensures View() == GrowView(old(View()))
    {
      hide Agree;
      hide Holds;
      hide ModelOk;
      if size == capacity {
        Resize(size * GROWTH_FACTOR);
      }
    }

    method Put(key: K, value: V) returns (rv: int)
      requires Valid() && size < capacity
      modifies this, nodes, model.members`value
      ensures Valid() && nodes == old(nodes) && fresh(model.members - old(model.members))
      ensures View() == PutView(old(View()), rep(key), value)
      ensures rv == if rep(key) in old(model.contents) then HT_UPDATED else HT_INSERTED
    {
      hide Agree;
      hide Holds;
      hide ModelOk;
      hide PutView;
      hide ViewOf;
      var node := Seek(key);
      if node != null {
        Overwrite(node, value);
        return HT_UPDATED;
      }
      Append(key, value);
      return HT_INSERTED;
    }

    // The node holding key, if any.
    method Seek(key: K) returns (node: Node?<K, V>)
      requires Valid()
      ensures node == null <==> rep(key) !in model.contents
      ensures node != null ==> node in model.members && rep(node.key) == rep(key)
      ensures node != null ==> model.contents[rep(key)] == node.value
    {
      var previous, found, i := Find(key, Bucket(key));
      node := found;
    }

    lemma NotLocated(k: K)
      requires Valid() && k !in model.contents
      ensures k !in model.located
    {
    }

    method Push(key: K, value: V) returns (n: Node<K, V>)
      requires Valid() && size < capacity && rep(key) !in model.contents
      modifies `size, `model, `chains, nodes
      ensures Valid() && fresh(n) && n.key == key
      ensures model == With(old(model), n, value) && size == old(size) + 1
    {
      NotLocated(rep(key));
      assert Bucket(key) < nodes.Length;
      hide *;
      n := new Node(key, value, nodes[Bucket(key)]);
      Add(n, value);
    }

    lemma WithView(m: Model<K, V>, n: Node<K, V>, value: V, size: nat, capacity: nat, relinked: nat)
      requires rep(n.key) !in m.contents
      ensures var m' := With(m, n, value);
              && m'.members == m.members + {n}
              && ViewOf(m', size + 1, capacity, relinked)
                 == PutView(ViewOf(m, size, capacity, relinked), rep(n.key), value)
    {
    }

    method Append(key: K, value: V)
      requires Valid() && size < capacity && rep(key) !in model.contents
      modifies `size, `model, `chains, nodes
      ensures Valid() && fresh(model.members - old(model.members))
      ensures View() == PutView(old(View()), rep(key), value)
    {
      hide Valid;
      hide With;
      hide PutView;
      hide ViewOf;
      var n := Push(key, value);
      WithView(old(model), n, value, old(size), capacity, relinked);
    }

    // An equal key was found: copy the value over.
    method Overwrite(node: Node<K, V>, value: V)
      requires Valid() && node in model.members
      modifies `model, node`value
      ensures Valid() && fresh(model.members - old(model.members))
      ensures View() == PutView(old(View()), rep(node.key), value)
    {
      hide Agree;
      hide Holds;
      node.value := value;
      model := model.(contents := model.contents[rep(node.key) := value]);
    }

    // Count the new node, and put it on the books.
    method Enroll(n: Node<K, V>, ghost value: V)
      requires Valid() && size < capacity && n !in model.members && rep(n.key) !in model.located && n.value == value
      modifies `size, `model
      ensures Agree(hash, compare, rep) && Sound(Shape()) && threshold == capacity * LOAD_FACTOR
      ensures model == With(old(model), n, value) && model.members == old(model.members) + {n}
      ensures size == old(size) + 1 == |model.members| && ModelOk(model) && Holds(old(model.members))
    {
      hide Agree;
      hide Holds;
      hide ModelOk;
      hide With;
      WithOk(model, n, value);
      size := size + 1;
      model := With(model, n, value);
    }

    // No equal key: the new node becomes the head of its bucket.
    method Add(n: Node<K, V>, ghost value: V)
      requires Valid() && size < capacity && n !in model.members && rep(n.key) !in model.located
      requires n.next == nodes[Bucket(n.key)] && n.value == value
      modifies `size, `model, `chains, nodes
      ensures Valid() && model == With(old(model), n, value) && size == old(size) + 1
    {
      hide Agree;
      hide Holds;
      hide ModelOk;
      hide With;
      hide Bucket;
      ghost var ms := model.members;
      Enroll(n, value);
      Hang(n, ms);
    }

    // ht_contains
    method Contains(key: K) returns (rv: int)
      requires Valid()
      ensures rv == if rep(key) in model.contents then HT_FOUND else HT_NOT_FOUND
    {
      var node := Seek(key);
      rv := if node != null then HT_FOUND else HT_NOT_FOUND;
    }

    // ht_lookup: the stored value, or nothing for the null pointer.
    method Lookup(key: K) returns (v: Option<V>)
      requires Valid()
      ensures v == if rep(key) in model.contents then Some(model.contents[rep(key)]) else None
    {
      var node := Seek(key);
      v := if node != null then Some(node.value) else None;
    }

    // Make the pointer to the node at position i of bucket b skip it.
    method Bypass(previous: Node?<K, V>, node: Node<K, V>, b: nat, ghost i: nat, ghost s: seq<Node<K, V>>)
      requires b < nodes.Length && i < |s| && node == s[i] && Linked(nodes[b], s) && Distinct(s)
      requires previous == if i == 0 then null else s[i - 1]
      modifies nodes, s`next
      ensures Linked(nodes[b], s[..i] + s[i + 1..])
      ensures forall c :: 0 <= c < nodes.Length && c != b ==> nodes[c] == old(nodes[c])
    {
      if previous != null {
        previous.next := node.next;
      } else {
        nodes[b] := node.next;
      }
    }

    // Take the node at position i of bucket b out of its chain.
    method Unlink(previous: Node?<K, V>, node: Node<K, V>, b: nat, ghost i: nat, ghost ms: set<Node<K, V>>)
      requires Holds(ms) && b < capacity && i < |chains[b]| && node == chains[b][i]
      requires previous == if i == 0 then null else chains[b][i - 1]
      modifies `chains, nodes, ms`next
      ensures Holds(ms - {node})
    {
      ghost var s := chains[b];
      assert BucketOk(b, ms);
      WithoutAt(s, i);
      hide Distinct;
      Bypass(previous, node, b, i, s);
      chains := chains[b := s[..i] + s[i + 1..]];
      assert BucketOk(b, ms - {node});
      forall c | 0 <= c < capacity && c != b
        ensures BucketOk(c, ms - {node})
      {
        assert old(BucketOk(c, ms));
        forall n | n in chains[c]
          ensures n !in s && n != node && n.next == old(n.next)
        {
        }
      }
    }

    ghost function Without(m: Model<K, V>, node: Node<K, V>): Model<K, V> {
      var k := rep(node.key);
      m.(members := m.members - {node}, located := m.located - {k}, contents := m.contents - {k})
    }

    lemma WithoutOk(m: Model<K, V>, node: Node<K, V>)
      requires ModelOk(m) && node in m.members
      ensures var m' := Without(m, node);
              ModelOk(m') && |m'.members| == |m.members| - 1 && m'.members == m.members - {node}
    {
      assert (m.located - {rep(node.key)}).Keys == m.located.Keys - {rep(node.key)};
    }

    // A found node leaves the table.
    method Remove(previous: Node?<K, V>, node: Node<K, V>, b: nat, ghost i: nat)
      requires Valid() && b < capacity && i < |chains[b]| && node == chains[b][i] && node in model.members
      requires previous == if i == 0 then null else chains[b][i - 1]
      modifies `size, `model, `chains, nodes, model.members`next
      ensures Valid() && model == Without(old(model), node) && size == old(size) - 1
    {
      hide Agree;
      hide Holds;
      hide ModelOk;
      hide Without;
      Unlink(previous, node, b, i, model.members);
      WithoutOk(model, node);
      model := Without(model, node);
      size := size - 1;
    }

    lemma WithoutView(m: Model<K, V>, node: Node<K, V>)
      requires ModelOk(m) && node in m.members
      ensures var m' := Without(m, node);
              && rep(node.key) in m.contents && m'.contents == m.contents - {rep(node.key)}
              && m'.inserted == m.inserted && m'.reserveCost == m.reserveCost && |m.members| > 0
    {
    }

    // Find the key and take its node out.
    method Take(key: K) returns (found: bool)
      requires Valid()
      modifies Repr()
      ensures Valid() && nodes == old(nodes) && model.members <= old(model.members)
      ensures found <==> rep(key) in old(View().contents)
      ensures found ==> old(View().shape.size) > 0
      ensures View() == LessView(old(View()), rep(key))
    {
      hide Agree;
      hide Holds;
      hide ModelOk;
      var previous, node, i := Find(key, Bucket(key));
      LessThenShrink(View(), rep(key));
      if node == null {
        return false;
      }
      WithoutView(model, node);
      WithoutLess(model, node, size, capacity, relinked);
      hide Without;
      hide LessView;
      Remove(previous, node, Bucket(key), i);
      return true;
    }

    lemma WithoutLess(m: Model<K, V>, node: Node<K, V>, size: nat, capacity: nat, relinked: nat)
      requires ModelOk(m) && node in m.members && size > 0
      ensures var m' := Without(m, node);
              m'.members <= m.members
              && ViewOf(m', size - 1, capacity, relinked) == LessView(ViewOf(m, size, capacity, relinked), rep(node.key))
    {
    }

    method Shrink()
      requires Valid()
      modifies Repr()
      ensures Valid() && fresh(Repr() - old(Repr()))
      ensures View() == ShrinkView(old(View()))
    {
      hide Agree;
      hide Holds;
      hide ModelOk;
      if size == capacity * SHRINK_THRESHOLD {
        Resize(size * GROWTH_FACTOR);
      }
    }

    // ht_erase. HT_SUCCESS and HT_NOT_FOUND are the same number, so the result never tells.
    method Erase(key: K) returns (rv: int)
      requires Valid()
      modifies Repr()
      ensures Valid() && fresh(Repr() - old(Repr()))
      ensures View() == EraseView(old(View()), rep(key))
      ensures model.contents == old(model.contents) - {rep(key)}
      ensures rv == HT_SUCCESS == HT_NOT_FOUND
    {
      hide Valid;
      hide View;
      hide EraseView;
      hide LessView;
      hide ShrinkView;
      ViewIs();
      EraseContents(View(), rep(key));
      LessThenShrink(View(), rep(key));
      var found := Take(key);
      if !found {
        ViewIs();
        return HT_NOT_FOUND;
      }
      Shrink();
      ViewIs();
      return HT_SUCCESS;
    }

    ghost function Charged(m: Model<K, V>, cost: nat): Model<K, V> {
      m.(reserveCost := m.reserveCost + cost)
    }

    lemma ModelCharged(m: Model<K, V>, cost: nat)
      requires ModelOk(m)
      ensures ModelOk(Charged(m, cost)) && Charged(m, cost).members == m.members
    {
    }

    // Put what reserve relinked on the account.
    ghost method Charge(cost: nat)
      requires Valid()
      modifies `model
      ensures Valid() && model == Charged(old(model), cost)
    {
      hide Agree;
      hide Holds;
      hide ModelOk;
      ModelCharged(model, cost);
      model := Charged(model, cost);
    }

    // ht_reserve
    method Reserve(minimumCapacity: nat) returns (rv: int)
      requires Valid()
      modifies Repr()
      ensures Valid() && fresh(Repr() - old(Repr()))
      ensures View() == ReserveView(old(View()), minimumCapacity) && model.contents == old(model.contents)
      ensures rv == HT_SUCCESS
    {
      hide Agree;
      hide Holds;
      hide ModelOk;
      if minimumCapacity > threshold {
        assert minimumCapacity / LOAD_FACTOR >= capacity;
        ghost var before := relinked;
        Resize(minimumCapacity / LOAD_FACTOR);
        Charge(relinked - before);
      }
      return HT_SUCCESS;
    }

    lemma EmptyOk(m: Model<K, V>)
      requires m == Model({}, map[], map[], m.inserted, m.reserveCost)
      ensures ModelOk(m)
    {
    }

    // ht_clear
    method Clear() returns (rv: int)
      requires Valid()
      modifies this
      ensures Valid() && fresh(Repr() - {this})
      ensures View() == ClearView(old(View())) && model.contents == map[] && size == 0 && capacity == 8
      ensures rv == HT_SUCCESS
    {
      hide Agree;
      hide Holds;
      hide ModelOk;
      Allocate(MINIMUM_CAPACITY);
      size := 0;
      model := Model({}, map[], map[], model.inserted, model.reserveCost);
      EmptyOk(model);
      return HT_SUCCESS;
    }

    // ---- Walking and copying ----

    // The bucket's part of the table, chain by chain.
    lemma OwnPartition()
      requires Valid()
      ensures Partition(chains, model.members) && |chains| == capacity == nodes.Length
      ensures forall b :: 0 <= b < capacity ==> Linked(nodes[b], chains[b])
    {
      hide Linked;
      hide Distinct;
      hide Agree;
      hide ModelOk;
      forall b | 0 <= b < capacity
        ensures Linked(nodes[b], chains[b]) && Distinct(chains[b])
        ensures forall n :: n in chains[b] ==> n in model.members && hash(n.key) % |chains| == b
      {
        assert BucketOk(b, model.members);
      }
    }

    // The entries seen are those of the nodes ns, each node once.
    ghost predicate Saw(seen: seq<(K, V)>, ns: seq<Node<K, V>>, vs: set<Node<K, V>>)
      reads vs`value
    {
      && |seen| == |ns| && Distinct(ns) && NodesOf(ns) == vs
      && forall i :: 0 <= i < |ns| ==> ns[i] in vs && seen[i] == (ns[i].key, ns[i].value)
    }

    lemma SawMore(seen: seq<(K, V)>, ns: seq<Node<K, V>>, vs: set<Node<K, V>>, n: Node<K, V>)
      requires Saw(seen, ns, vs) && n !in vs
      ensures Saw(seen + [(n.key, n.value)], ns + [n], vs + {n})
    {
      forall i | 0 <= i < |ns|
        ensures ns[i] != n
      {
      }
      assert NodesOf(ns + [n]) == vs + {n};
    }

    // One chain of ht_iterate.
    method WalkChain(b: nat, seen0: seq<(K, V)>, ghost ns0: seq<Node<K, V>>)
      returns (seen: seq<(K, V)>, ghost ns: seq<Node<K, V>>)
      requires Valid() && b < capacity && b < |chains|
      requires Saw(seen0, ns0, Below(capacity, model.members, b))
      ensures Saw(seen, ns, Below(capacity, model.members, b + 1))
      ensures seen0 <= seen && |seen| == |seen0| + |chains[b]|
    {
      hide Agree;
      hide Holds;
      hide ModelOk;
      hide Saw;
      hide Below;
      hide Linked;
      hide NodesOf;
      hide Distinct;
      OwnPartition();
      BelowNext(chains, model.members, b);
      ghost var s, vs := chains[b], Below(capacity, model.members, b);
      seen, ns := seen0, ns0;
      var node := nodes[b];
      ghost var i := 0;
      NodesNone(s, vs);
      assert s[0..] == s;
      while node != null
        invariant 0 <= i <= |s| && Linked(node, s[i..]) && Saw(seen, ns, vs + NodesOf(s[..i]))
        invariant seen0 <= seen && |seen| == |seen0| + i
        decreases |s| - i
      {
        LinkedTail(node, s, i);
        NodesStep(s, vs, i);
        SawMore(seen, ns, vs + NodesOf(s[..i]), node);
        seen, ns := seen + [(node.key, node.value)], ns + [node];
        node, i := node.next, i + 1;
      }
      LinkedEnd(s, i);
    }

    // ht_iterate, with a callback that notes what it is given: every entry once, and nothing else.
    method Iterate() returns (seen: seq<(K, V)>)
      requires Valid()
      ensures |seen| == |model.contents|
      ensures forall i :: 0 <= i < |seen| ==>
                rep(seen[i].0) in model.contents && model.contents[rep(seen[i].0)] == seen[i].1
      ensures forall i, j :: 0 <= i < j < |seen| ==> rep(seen[i].0) != rep(seen[j].0)
    {
      hide Agree;
      hide Holds;
      hide ModelOk;
      hide Saw;
      hide Below;
      OwnPartition();
      BelowEnds(chains, model.members);
      ghost var ns := [];
      seen := [];
      SawNothing();
      var chain := 0;
      while chain < capacity
        invariant 0 <= chain <= capacity && Saw(seen, ns, Below(capacity, model.members, chain))
      {
        seen, ns := WalkChain(chain, seen, ns);
        chain := chain + 1;
      }
      SawAll(seen, ns);
    }

    lemma SawNothing()
      ensures Saw([], [], {})
    {
    }

    lemma SawAll(seen: seq<(K, V)>, ns: seq<Node<K, V>>)
      requires Valid() && Saw(seen, ns, model.members)
      ensures |seen| == |model.contents|
      ensures forall i :: 0 <= i < |seen| ==>
                rep(seen[i].0) in model.contents && model.contents[rep(seen[i].0)] == seen[i].1
      ensures forall i, j :: 0 <= i < j < |seen| ==> rep(seen[i].0) != rep(seen[j].0)
    {
      hide Agree;
      hide Holds;
      DistinctCount(ns);
      assert |model.contents| == |model.contents.Keys| == |model.located.Keys| == |model.located|;
    }

    // The entries of the nodes vs.
    static ghost function Restrict(m: Model<K, V>, vs: set<Node<K, V>>): map<K, V>
      requires m.contents.Keys == m.located.Keys
    {
      map k | k in m.located && m.located[k] in vs :: m.contents[k]
    }

    lemma RestrictMore(m: Model<K, V>, vs: set<Node<K, V>>, n: Node<K, V>)
      requires ModelOk(m) && n in m.members && n !in vs
      ensures Restrict(m, vs + {n}) == Restrict(m, vs)[rep(n.key) := n.value] && rep(n.key) !in Restrict(m, vs)
    {
    }

    lemma RestrictEnds(m: Model<K, V>)
      requires ModelOk(m)
      ensures Restrict(m, {}) == map[] && Restrict(m, m.members) == m.contents
    {
    }

    // This table holds copies of the nodes vs of source, in as many buckets.
    ghost predicate Copied(source: HashTable<K, V>, vs: set<Node<K, V>>)
      reads this, nodes, model.members, source
    {
      && hash == source.hash && compare == source.compare && rep == source.rep
      && capacity == source.capacity && source != this && source.nodes != nodes
      && Holds(model.members) && ModelOk(model) && model.members !! source.model.members
      && |model.members| == |vs| && source.model.contents.Keys == source.model.located.Keys
      && model.contents == Restrict(source.model, vs)
      && model.inserted == |vs| && model.reserveCost == 0
    }

    lemma WithCopied(m: Model<K, V>, n: Node<K, V>, value: V)
      requires ModelOk(m) && rep(n.key) !in m.contents
      ensures rep(n.key) !in m.located && With(m, n, value).contents == m.contents[rep(n.key) := value]
      ensures With(m, n, value).members == m.members + {n}
      ensures With(m, n, value).inserted == m.inserted + 1 && With(m, n, value).reserveCost == m.reserveCost
    {
    }

    lemma ValidModel()
      requires Valid()
      ensures ModelOk(model) && model.contents.Keys == model.located.Keys && size == |model.members|
    {
      hide Agree;
      hide Holds;
    }

    lemma CopiedMore(source: HashTable<K, V>, m: Model<K, V>, vs: set<Node<K, V>>, node: Node<K, V>, n: Node<K, V>)
      requires source.Valid() && rep == source.rep && node in source.model.members && node !in vs
      requires ModelOk(m) && source.model.contents.Keys == source.model.located.Keys
      requires m.contents == Restrict(source.model, vs) && n !in m.members && n.key == node.key && n.value == node.value
      ensures var m' := With(m, n, n.value);
              ModelOk(m') && |m'.members| == |m.members| + 1 && m'.members == m.members + {n}
              && m'.contents == Restrict(source.model, vs + {node})
              && m'.inserted == m.inserted + 1 && m'.reserveCost == m.reserveCost
    {
      hide Agree;
      hide Holds;
      hide Restrict;
      source.ValidModel();
      source.RestrictMore(source.model, vs, node);
      WithCopied(m, n, n.value);
      WithOk(m, n, n.value);
    }

    // A new copy of one node joins its bucket.
    method HangCopy(source: HashTable<K, V>, node: Node<K, V>, n: Node<K, V>, ghost vs: set<Node<K, V>>)
      requires source.Valid() && node in source.model.members && node !in vs
      requires Copied(source, vs) && {this, nodes} !! source.Repr() && capacity == nodes.Length > 0
      requires n !in model.members && n !in source.model.members
      requires n.key == node.key && n.value == node.value && n.next == nodes[Bucket(n.key)]
      modifies `model, `chains, nodes
      ensures Copied(source, vs + {node}) && model.members == old(model.members) + {n}
    {
      hide Agree;
      hide Holds;
      hide ModelOk;
      hide With;
      hide Restrict;
      hide Linked;
      hide Bucket;
      hide HashTable.Valid;
      ghost var m := model;
      CopiedMore(source, m, vs, node, n);
      model := With(m, n, n.value);
      Hang(n, m.members);
    }

    // _ht_push_front of a copy of one node.
    method CopyNode(source: HashTable<K, V>, node: Node<K, V>, ghost vs: set<Node<K, V>>)
      requires source.Valid() && node in source.model.members && node !in vs
      requires Copied(source, vs) && {this, nodes} !! source.Repr() && capacity == nodes.Length > 0
      modifies `model, `chains, nodes
      ensures source.Valid() && Copied(source, vs + {node})
      ensures nodes == old(nodes) && fresh(model.members - old(model.members))
    {
      hide Agree;
      hide Holds;
      hide ModelOk;
      hide Restrict;
      hide Linked;
      var n := new Node(node.key, node.value, nodes[Bucket(node.key)]);
      HangCopy(source, node, n, vs);
    }

    // Where a walk along bucket b stands and goes next.
    lemma ChainAt(b: nat, i: nat)
      requires Valid() && b < capacity
      ensures b < nodes.Length == |chains| && nodes[b] == At(chains[b], 0)
      ensures i < |chains[b]| ==>
                var n := chains[b][i];
                && n.next == At(chains[b], i + 1) && n in model.members
                && n !in Below(capacity, model.members, b) + NodesOf(chains[b][..i])
                && Below(capacity, model.members, b) + NodesOf(chains[b][..i]) + {n}
                   == Below(capacity, model.members, b) + NodesOf(chains[b][..i + 1])
      ensures Below(capacity, model.members, b) + NodesOf(chains[b][..0]) == Below(capacity, model.members, b)
      ensures Below(capacity, model.members, b) + NodesOf(chains[b]) == Below(capacity, model.members, b + 1)
    {
      hide Agree;
      hide Holds;
      hide ModelOk;
      hide Below;
      hide Linked;
      hide Distinct;
      hide NodesOf;
      hide At;
      OwnPartition();
      BelowNext(chains, model.members, b);
      LinkedAt(nodes[b], chains[b], i);
      NodesNone(chains[b], Below(capacity, model.members, b));
      if i < |chains[b]| {
        NodesStep(chains[b], Below(capacity, model.members, b), i);
      }
    }

    // The inner loop of ht_copy.
    method CopyChain(source: HashTable<K, V>, b: nat)
      requires source.Valid() && b < source.capacity
      requires Copied(source, source.Below(source.capacity, source.model.members, b))
      requires {this, nodes} !! source.Repr() && capacity == nodes.Length > 0
      modifies `model, `chains, nodes
      ensures source.Valid() && Copied(source, source.Below(source.capacity, source.model.members, b + 1))
      ensures nodes == old(nodes) && fresh(model.members - old(model.members))
    {
      hide Valid;
      hide Copied;
      hide Below;
      hide NodesOf;
      source.ChainAt(b, 0);
      ghost var s, vs := source.chains[b], source.Below(source.capacity, source.model.members, b);
      var node := source.nodes[b];
      ghost var i := 0;
      while node != null
        invariant 0 <= i <= |s| && node == At(s, i) && source.Valid()
        invariant Copied(source, vs + NodesOf(s[..i])) && fresh(model.members - old(model.members))
        decreases |s| - i
      {
        source.ChainAt(b, i);
        CopyNode(source, node, vs + NodesOf(s[..i]));
        source.ChainAt(b, i);
        node, i := node.next, i + 1;
      }
      assert s[..i] == s;
    }

    lemma CopiedNone(source: HashTable<K, V>)
      requires source.Valid() && hash == source.hash && compare == source.compare && rep == source.rep
      requires capacity == source.capacity && source != this && source.nodes != nodes
      requires Holds({}) && model == Model({}, map[], map[], 0, 0)
      ensures Copied(source, {})
    {
      hide Holds;
      hide Agree;
      source.ValidModel();
    }

    lemma CopiedAll(source: HashTable<K, V>)
      requires source.Valid() && Copied(source, source.model.members)
      requires size == source.size && threshold == capacity * LOAD_FACTOR && relinked == 0
      ensures Valid() && model.contents == source.model.contents
    {
      hide Agree;
      hide Holds;
      source.ValidModel();
      source.RestrictEnds(source.model);
    }

    // The outer loop of ht_copy.
    method CopyAll(source: HashTable<K, V>)
      requires source.Valid() && {this, nodes} !! source.Repr() && capacity == nodes.Length == source.capacity > 0
      requires Copied(source, {})
      modifies `model, `chains, nodes
      ensures source.Valid() && Copied(source, source.model.members)
      ensures nodes == old(nodes) && fresh(model.members - old(model.members))
    {
      hide Agree;
      hide Holds;
      hide ModelOk;
      hide Copied;
      hide Below;
      source.OwnPartition();
      source.BelowEnds(source.chains, source.model.members);
      var chain := 0;
      while chain < source.capacity
        invariant 0 <= chain <= source.capacity && source.Valid()
        invariant Copied(source, source.Below(source.capacity, source.model.members, chain))
        invariant nodes == old(nodes) && fresh(model.members - old(model.members))
      {
        CopyChain(source, chain);
        chain := chain + 1;
      }
    }

    // The loops of ht_copy, into a table set up but for its nodes.
    method CopyNodes(source: HashTable<K, V>)
      requires source.Valid() && this !in source.Repr() && relinked == 0 && size == source.size
      requires hash == source.hash && compare == source.compare && rep == source.rep
      requires model == Model({}, map[], map[], 0, 0)
      modifies this
      ensures Valid() && fresh(nodes) && fresh(model.members) && model.contents == source.model.contents
      ensures size == source.size && capacity == source.capacity && relinked == 0
    {
      hide Agree;
      hide Holds;
      hide ModelOk;
      hide Copied;
      hide Restrict;
      hide Bucket;
      Allocate(source.capacity);
      CopiedNone(source);
      CopyAll(source);
      CopiedAll(source);
    }

    // ht_copy: a table of the same capacity with the same contents, sharing no node.
    constructor Copy(source: HashTable<K, V>)
      requires source.Valid()
      ensures Valid() && fresh(Repr()) && model.contents == source.model.contents
      ensures size == source.size && capacity == source.capacity && relinked == 0
      ensures hash == source.hash && compare == source.compare && rep == source.rep
    {
      hide Agree;
      hide Holds;
      hide ModelOk;
      hash, compare, rep := source.hash, source.compare, source.rep;
      size, relinked, model := source.size, 0, Model({}, map[], map[], 0, 0);
      nodes := new Node?<K, V>[0];
      new;
      CopyNodes(source);
    }
  }
}
