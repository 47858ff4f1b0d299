// Whole runs of a Redis2P client against one map.
module ClusterRun {
  import opened Wire
  import opened Partition

  datatype ClusterOp =
    | OpSet(key: Bytes, value: Bytes, seed: nat, net: Net)
    | OpDel(key: Bytes, seed: nat, net: Net)
    | OpDelMany(keys: seq<Bytes>, nets: nat -> Net)
    | OpMSet(keys: seq<Bytes>, values: seq<Bytes>, seed: nat, nets: nat -> Net)
    | OpGet(key: Bytes, seed: nat, net: Net)
    | OpMGet(keys: seq<Bytes>, seed: nat, nets: nat -> Net)
    | OpKeys(matching: Bytes -> bool, seed: nat, lister: Store -> seq<Bytes>, net: Net)
  {
    predicate IsRead() {
      OpGet? || OpMGet? || OpKeys?
    }
  }

  /** The servers answer KEYS by listing the matching keys of their store, each once. */
  ghost predicate HonestOp(op: ClusterOp) {
    op.OpKeys? ==> forall m: Store :: Listing(op.lister(m), m, op.matching)
  }

  ghost predicate HonestOps(ops: seq<ClusterOp>) {
    forall k | 0 <= k < |ops| :: HonestOp(ops[k])
  }

  datatype Result =
    | Stored
    | Deleted(count: nat)
    | Value(value: Option<Bytes>)
    | Values(values: seq<Option<Bytes>>)
    | Listed(keys: seq<Bytes>)
    | Failed

  // ---------- one map ----------

  /** What one map would hold after the operation. */
  function MapAfter(m: Store, op: ClusterOp): Store {
    match op
    case OpSet(k, v, _, _) => m[k := v]
    case OpDel(k, _, _) => m - {k}
    case OpDelMany(ks, _) => m - KeySet(ks)
    case OpMSet(ks, vs, _, _) => if |ks| == |vs| then PutAll(m, ks, vs) else m
    case _ => m
  }

  function LookupAll(m: Store, keys: seq<Bytes>): seq<Option<Bytes>> {
    seq(|keys|, i requires 0 <= i < |keys| => Lookup(m, keys[i]))
  }

  /** What one map would answer; the order of a listing is free. */
  ghost predicate MapAnswers(m: Store, op: ClusterOp, r: Result) {
    match op
    case OpSet(_, _, _, _) => r == Stored
    case OpMSet(_, _, _, _) => r == Stored
    case OpDel(k, _, _) => r == Deleted(if k in m then 1 else 0)
    case OpDelMany(ks, _) => r == Deleted(|Present(ks, m)|)
    case OpGet(k, _, _) => r == Value(Lookup(m, k))
    case OpMGet(ks, _, _) => r == Values(LookupAll(m, ks))
    case OpKeys(matching, _, _, _) => r.Listed? && Listing(r.keys, m, matching)
  }

  // ---------- when an operation succeeds ----------

  /** Told from the network, the operation and the map alone: a write needs every replica, a read one of each key. */
  ghost predicate Succeeds(m: Store, op: ClusterOp, groups: nat, hostNum: nat) {
    match op
    case OpSet(_, _, _, net) => AllAnswered(net, groups)
    case OpDel(_, _, net) => AllAnswered(net, groups)
    case OpDelMany(ks, nets) => ks != [] && forall n: nat | n < |ks| :: AllAnswered(nets(n), groups)
    case OpMSet(ks, vs, _, nets) => |ks| == |vs| && forall n: nat | n < |ks| :: AllAnswered(nets(n), groups)
    case OpGet(k, _, net) => Readable(m, k, groups, net)
    case OpMGet(ks, _, nets) => forall n: nat | n < |ks| :: Readable(m, ks[n], groups, nets(n))
    case OpKeys(matching, _, _, net) => AllAnswered(net, hostNum) && !([] in m && matching([]))
  }

  /** Every write of the run succeeds. */
  ghost predicate WritesSucceed(ops: seq<ClusterOp>, groups: nat, hostNum: nat) {
    forall k | 0 <= k < |ops| :: !ops[k].IsRead() ==> Succeeds(map[], ops[k], groups, hostNum)
  }

  function MapRun(m: Store, ops: seq<ClusterOp>): Store
    decreases |ops|
  {
    if |ops| == 0 then m else MapRun(MapAfter(m, ops[0]), ops[1..])
  }

  /**
   * Every result is the map's answer of that moment, or Failed where the operation cannot succeed;
   * a failed write ends the run.
   */
  ghost predicate Agree(m: Store, groups: nat, hostNum: nat, ops: seq<ClusterOp>, results: seq<Result>)
    decreases |ops|
  {
    if |ops| == 0 then results == []
    else if !Succeeds(m, ops[0], groups, hostNum) && !ops[0].IsRead() then results == [Failed]
    else
      && results != []
      && (if Succeeds(m, ops[0], groups, hostNum) then MapAnswers(m, ops[0], results[0]) else results[0] == Failed)
      && Agree(MapAfter(m, ops[0]), groups, hostNum, ops[1..], results[1..])
  }

  method RunOp(c: Redis2P, op: ClusterOp) returns (r: Result)
    requires c.Refines() && HonestOp(op)
    modifies c
    ensures c.Shape()
    ensures r.Failed? <==> !Succeeds(old(c.contents), op, c.groups, c.hostNum)
    ensures !r.Failed? ==> MapAnswers(old(c.contents), op, r)
    ensures !r.Failed? || op.IsRead() ==> c.Refines() && c.contents == MapAfter(old(c.contents), op)
  {
    if op.IsRead() {
      r := RunRead(c, op);
    } else {
      hide Present, PutAll;
      r := RunWrite(c, op);
    }
  }

  method RunWrite(c: Redis2P, op: ClusterOp) returns (r: Result)
    requires c.Refines() && !op.IsRead()
    modifies c
    ensures c.Shape()
    ensures r.Failed? <==> !Succeeds(old(c.contents), op, c.groups, c.hostNum)
    ensures !r.Failed? ==> MapAnswers(old(c.contents), op, r)
    ensures !r.Failed? ==> c.Refines() && c.contents == MapAfter(old(c.contents), op)
  {
    hide Redis2P.Written, Redis2P.StoppedAt, Redis2P.OnlyKey, AllAnswered, PutAll, Present, KeySet, Redis2P.Stands;
    r := Failed;
    match op {
      case OpSet(k, v, seed, net) =>
        var ok := c.Set(k, v, seed, net);
        if ok { r := Stored; }
      case OpDel(k, seed, net) =>
        var ok, n := c.Del(k, seed, net);
        if ok { r := Deleted(n); }
      case OpDelMany(ks, nets) =>
        var ok, n := c.DelMany(ks, nets);
        assert ks[..|ks|] == ks;
        if ok { r := Deleted(n); }
      case OpMSet(ks, vs, seed, nets) =>
        var ok := c.MSet(ks, vs, seed, nets);
        if ok { r := Stored; }
    }
  }

  method RunRead(c: Redis2P, op: ClusterOp) returns (r: Result)
    requires c.Refines() && HonestOp(op) && op.IsRead()
    ensures r.Failed? <==> !Succeeds(c.contents, op, c.groups, c.hostNum)
    ensures !r.Failed? ==> MapAnswers(c.contents, op, r)
  {
    hide Readable, Listing, AllAnswered;
    r := Failed;
    match op {
      case OpGet(k, seed, net) =>
        var ok, v := c.Get(k, seed, net);
        if ok { r := Value(v); }
      case OpMGet(ks, seed, nets) =>
        var ok, vs := c.MGet(ks, seed, nets);
        if ok {
          r := Values(vs);
          assert vs == LookupAll(c.contents, ks);
        }
      case OpKeys(matching, seed, lister, net) =>
        r := RunKeys(c, matching, seed, lister, net);
    }
  }

  method RunKeys(c: Redis2P, matching: Bytes -> bool, seed: nat, lister: Store -> seq<Bytes>, net: Net)
    returns (r: Result)
    requires c.Refines() && forall m: Store :: Listing(lister(m), m, matching)
    ensures r.Failed? <==> !(AllAnswered(net, c.hostNum) && !([] in c.contents && matching([])))
    ensures !r.Failed? ==> r.Listed? && Listing(r.keys, c.contents, matching)
  {
    hide Redis2P.BlockHost, Slice, Redis2P.Index, Listing;
    var stores := c.stores;
    var lists := (i: nat) => var h := c.BlockHost(seed, i); if h < |stores| then lister(stores[h]) else [];
    var ok, keys := c.Keys(matching, seed, lists, net);
    EmptyKeyListed(c, matching, seed, lists);
    r := if ok then Listed(keys) else Failed;
  }

  /** Some host of the group lists the empty key exactly when the map holds it and it matches. */
  lemma EmptyKeyListed(c: Redis2P, matching: Bytes -> bool, seed: nat, lists: nat -> seq<Bytes>)
    requires c.Refines()
    requires forall i: nat | i < c.hostNum && c.BlockHost(seed, i) < |c.stores| ::
               Listing(lists(i), c.stores[c.BlockHost(seed, i)], matching)
    ensures (exists i: nat :: i < c.hostNum && [] in lists(i)) <==> [] in c.contents && matching([])
  {
    hide Redis2P.BlockHost;
    forall i: nat | i < c.hostNum
      ensures [] in lists(i) <==> [] in c.contents && matching([]) && c.Index([]) == i
    {
      c.BlockHostInClass(seed, i);
      assert c.stores[c.BlockHost(seed, i)] == Slice(c.contents, c.IndexFn(), i);
    }
    assert c.Index([]) < c.hostNum;
    assert [] in c.contents && matching([]) ==> [] in lists(c.Index([]));
  }

  /**
   * Over every run whose writes all succeed, which the network and the operations decide, the
   * cluster cannot be told from one map. Up to a write that fails, neither can it.
   */
  method RunAll(c: Redis2P, ops: seq<ClusterOp>) returns (writesOk: bool, results: seq<Result>)
    requires c.Refines() && HonestOps(ops)
    modifies c
    ensures writesOk <==> WritesSucceed(ops, c.groups, c.hostNum)
    ensures Agree(old(c.contents), c.groups, c.hostNum, ops, results)
    ensures writesOk ==> c.Refines() && c.contents == MapRun(old(c.contents), ops) && |results| == |ops|
    decreases |ops|
  {
    if |ops| == 0 {
      return true, [];
    }
    hide Succeeds, MapAnswers, HonestOp, MapAfter;
    WriteIgnoresMap(c.contents, ops[0], c.groups, c.hostNum);
    WritesOneMore(ops, c.groups, c.hostNum);
    var r := RunOp(c, ops[0]);
    if r.Failed? && !ops[0].IsRead() {
      return false, [r];
    }
    var more;
    writesOk, more := RunAll(c, ops[1..]);
    results := [r] + more;
    assert results[1..] == more;
  }

  lemma WriteIgnoresMap(m: Store, op: ClusterOp, groups: nat, hostNum: nat)
    ensures !op.IsRead() ==> Succeeds(m, op, groups, hostNum) == Succeeds(map[], op, groups, hostNum)
  {
  }

  lemma WritesOneMore(ops: seq<ClusterOp>, groups: nat, hostNum: nat)
    requires |ops| > 0
    ensures WritesSucceed(ops, groups, hostNum) <==>
            (ops[0].IsRead() || Succeeds(map[], ops[0], groups, hostNum)) && WritesSucceed(ops[1..], groups, hostNum)
  {
    hide Succeeds;
    assert forall k | 1 <= k < |ops| :: ops[k] == ops[1..][k - 1];
    assert forall k | 0 <= k < |ops[1..]| :: ops[1..][k] == ops[k + 1];
  }
}
