// Redis2P: many servers behaving as one map.
module Partition {
  import opened Wire
  import opened Replicas

  type Store = map<Bytes, Bytes>

  // One call to one host: answered, or failed before or after the server carried it out.
  datatype Answer = Answered | LostBefore | LostAfter

  // The answers to the successive host calls of one operation.
  type Net = nat -> Answer

  datatype Write = Put(value: Bytes) | Remove

  function Applied(m: Store, key: Bytes, op: Write): Store {
    match op
    case Put(v) => m[key := v]
    case Remove => m - {key}
  }

  /** What DEL reports: 1 if the key was there. Writes of a value report nothing. */
  function Reported(m: Store, key: Bytes, op: Write): nat {
    if op.Remove? && key in m then 1 else 0
  }

  function Lookup(m: Store, key: Bytes): Option<Bytes> {
    if key in m then Some(m[key]) else None
  }

  /** GET on one host: the parser refuses the empty bulk, so an empty value is never read back. */
  function HostGet(m: Store, key: Bytes, a: Answer): Option<Option<Bytes>> {
    if !a.Answered? || Lookup(m, key) == Some([]) then None else Some(Lookup(m, key))
  }

  /** The part of a map whose keys fall into class c. */
  function Slice(m: Store, index: Bytes -> nat, c: nat): Store {
    map k | k in m && index(k) == c :: m[k]
  }

  lemma SliceApplied(m: Store, index: Bytes -> nat, c: nat, key: Bytes, op: Write)
    ensures Slice(Applied(m, key, op), index, c) ==
            if index(key) == c then Applied(Slice(m, index, c), key, op) else Slice(m, index, c)
  {
  }

  /** Every replica answers. */
  ghost predicate AllAnswered(net: Net, groups: nat) {
    forall i: nat | i < groups :: net(i).Answered?
  }

  /** Some replica answers, and the value is one that a reply can carry. */
  ghost predicate Readable(m: Store, key: Bytes, groups: nat, net: Net) {
    !(key in m && m[key] == []) && exists i: nat :: i < groups && net(i).Answered?
  }

  /** The first of the keys at n, n + 1, ... whose write is not answered by every replica, or 'count'. */
  ghost function FirstFailure(nets: nat -> Net, n: nat, count: nat, groups: nat): (k: nat)
    requires n <= count
    ensures n <= k <= count
    ensures k < count ==> !AllAnswered(nets(k), groups)
    ensures forall p: nat | n <= p < k :: AllAnswered(nets(p), groups)
    decreases count - n
  {
    if n == count || !AllAnswered(nets(n), groups) then n else FirstFailure(nets, n + 1, count, groups)
  }

  /** How many hosts of a key's list carry out a write that stops at the first failed call. */
  function CarriedOut(net: Net, i: nat, groups: nat): (n: nat)
    requires i <= groups
    ensures i <= n <= groups
    decreases groups - i
  {
    if i == groups then groups
    else
      match net(i)
      case Answered => CarriedOut(net, i + 1, groups)
      case LostBefore => i
      case LostAfter => i + 1
  }

  /** Keys named by a list, among those of a map. */
  function Present(keys: seq<Bytes>, m: Store): set<Bytes> {
    set k | k in keys && k in m
  }

  function KeySet(keys: seq<Bytes>): set<Bytes> {
    set k | k in keys
  }

  /** KEYS on one host: an answer that holds the empty key cannot be read. */
  function HostKeys(list: seq<Bytes>, a: Answer): Option<seq<Bytes>> {
    if a.Answered? && [] !in list then Some(list) else None
  }

  /** The map after setting the keys one after the other. */
  function PutAll(m: Store, keys: seq<Bytes>, values: seq<Bytes>): Store
    requires |keys| == |values|
  {
    if keys == [] then m
    else PutAll(m, keys[..|keys| - 1], values[..|keys| - 1])[keys[|keys| - 1] := values[|keys| - 1]]
  }

  /** mset is last-write-wins, and touches nothing else. */
  lemma {:induction false} LastWriteWins(m: Store, keys: seq<Bytes>, values: seq<Bytes>, i: nat)
    requires |keys| == |values| && i < |keys|
    requires forall j | i < j < |keys| :: keys[j] != keys[i]
    ensures keys[i] in PutAll(m, keys, values) && PutAll(m, keys, values)[keys[i]] == values[i]
    ensures forall k | k !in keys :: Lookup(PutAll(m, keys, values), k) == Lookup(m, k)
    decreases |keys|
  {
    var n := |keys| - 1;
    PutAllFrame(m, keys, values);
    if i < n {
      LastWriteWins(m, keys[..n], values[..n], i);
      assert keys[n] != keys[i];
    }
  }

  lemma {:induction false} PutAllFrame(m: Store, keys: seq<Bytes>, values: seq<Bytes>)
    requires |keys| == |values|
    ensures forall k | k !in keys :: Lookup(PutAll(m, keys, values), k) == Lookup(m, k)
    decreases |keys|
  {
    if keys != [] {
      var n := |keys| - 1;
      PutAllFrame(m, keys[..n], values[..n]);
      assert keys[n] in keys;
      assert forall k | k !in keys :: k !in keys[..n];
    }
  }

  ghost predicate NoDuplicates(s: seq<Bytes>) {
    forall i, j | 0 <= i < j < |s| :: s[i] != s[j]
  }

  /** A server's answer to KEYS: each matching key of the store, once, in any order. */
  ghost predicate Listing(list: seq<Bytes>, m: Store, matching: Bytes -> bool) {
    NoDuplicates(list) && forall k: Bytes :: k in list <==> k in m && matching(k)
  }

  class Redis2P {
    const hash: Bytes -> nat
    const groups: nat
    const hostNum: nat
    var stores: seq<Store>      // what the servers hold
    ghost var contents: Store   // the one map that they stand for

    /** redis2_sp_vector_.size() is the product of the two. */
    ghost predicate Shape()
      reads this
    {
      groups > 0 && hostNum > 0 && |stores| == hostNum * groups
    }

    /** __get_key_host_index. */
    function Index(key: Bytes): nat
      requires hostNum > 0
    {
      hash(key) % hostNum
    }

    ghost function IndexFn(): Bytes -> nat
      requires hostNum > 0
    {
      (k: Bytes) => hash(k) % hostNum
    }

    /** Every replica of a class holds exactly that class of the map: replicas agree and no key sits elsewhere. */
    ghost predicate Refines()
      reads this
    {
      Shape() && Stands(stores, contents)
    }

    /** These stores are those of one map. */
    ghost predicate Stands(hosts: seq<Store>, m: Store)
      requires hostNum > 0
    {
      forall h: nat | h < |hosts| :: hosts[h] == Slice(m, IndexFn(), h % hostNum)
    }

    constructor (hash: Bytes -> nat, groups: nat, hostNum: nat)
      requires groups > 0 && hostNum > 0
      ensures this.hash == hash && this.groups == groups && this.hostNum == hostNum
      ensures Refines() && contents == map[]
    {
      this.hash, this.groups, this.hostNum := hash, groups, hostNum;
      stores := seq(hostNum * groups, _ => map[]);
      contents := map[];
    }

    /** The stores of one map. */
    ghost function StoresOf(m: Store): (hosts: seq<Store>)
      requires hostNum > 0
      ensures |hosts| == hostNum * groups && Stands(hosts, m)
    {
      seq(hostNum * groups, h requires 0 <= h < hostNum * groups => Slice(m, IndexFn(), h % hostNum))
    }

    /** __get_key_client: the key's host in every group, starting from the group of the seed. */
    method KeyClient(key: Bytes, seed: nat) returns (indexes: seq<nat>)
      requires Shape()
      ensures |indexes| == groups
      ensures forall i: nat | i < groups ::
                indexes[i] == IndexAt(Index(key), hostNum, groups, seed, i) && indexes[i] < |stores|
      ensures forall i: nat | i < groups :: indexes[i] == hash(key) % hostNum + hostNum * ((seed + i) % groups)
    {
      indexes := [];
      var i := 0;
      while i < groups
        invariant 0 <= i <= groups && |indexes| == i
        invariant forall j: nat | j < i ::
                    indexes[j] == IndexAt(Index(key), hostNum, groups, seed, j) && indexes[j] < |stores|
      {
        IndexInClass(Index(key), hostNum, groups, seed, i);
        indexes := indexes + [Index(key) + hostNum * ((seed + i) % groups)];
        i := i + 1;
      }
    }

    /** Where a key is: on exactly the hosts, one in each group, whose class is that of its hash. */
    lemma KeyPlace(key: Bytes, h: nat)
      requires Refines() && h < |stores|
      ensures key in stores[h] <==> key in contents && hash(key) % hostNum == h % hostNum
      ensures key in stores[h] ==> stores[h][key] == contents[key]
    {
    }

    /** The i-th host of the group of the seed. */
    function BlockHost(seed: nat, i: nat): nat
      requires groups > 0
    {
      (if groups > 1 then seed % groups else 0) * hostNum + i
    }

    lemma BlockHostInClass(seed: nat, i: nat)
      requires Shape() && i < hostNum
      ensures BlockHost(seed, i) < |stores| && BlockHost(seed, i) % hostNum == i
      ensures BlockHost(seed, i) / hostNum == seed % groups
    {
      GroupBlock(hostNum, groups, if groups > 1 then seed % groups else 0, i);
    }

    /** __get_group_client: all hosts of one group, one of each class. */
    method GroupClient(seed: nat) returns (indexes: seq<nat>)
      requires Shape()
      ensures |indexes| == hostNum
      ensures forall i: nat | i < hostNum ::
                indexes[i] == BlockHost(seed, i) && indexes[i] < |stores| && indexes[i] % hostNum == i
      ensures forall i: nat | i < hostNum :: indexes[i] / hostNum == seed % groups
    {
      var first := if groups > 1 then (seed % groups) * hostNum else 0;
      indexes := [];
      var i := 0;
      while i < hostNum
        invariant 0 <= i <= hostNum && |indexes| == i
        invariant forall j: nat | j < i ::
                    indexes[j] == BlockHost(seed, j) && indexes[j] < |stores| && indexes[j] % hostNum == j
        invariant forall j: nat | j < i :: indexes[j] / hostNum == seed % groups
      {
        BlockHostInClass(seed, i);
        indexes := indexes + [first + i];
        i := i + 1;
      }
    }

    // ---------- writes ----------

    /** Host h is among the first i of the key's list. */
    ghost predicate Visited(h: nat, key: Bytes, seed: nat, i: nat)
      requires hostNum > 0 && groups > 0
    {
      h % hostNum == Index(key) && h / hostNum < groups && TurnOf(groups, seed, h / hostNum) < i
    }

    /** Going on to the i-th host of the list visits exactly that one more. */
    lemma VisitNext(key: Bytes, seed: nat, i: nat, h: nat)
      requires hostNum > 0 && groups > 0 && i < groups && h < hostNum * groups
      ensures Visited(h, key, seed, i + 1) <==>
              Visited(h, key, seed, i) || h == IndexAt(Index(key), hostNum, groups, seed, i)
      ensures h == IndexAt(Index(key), hostNum, groups, seed, i) ==> !Visited(h, key, seed, i)
    {
      IndexInClass(Index(key), hostNum, groups, seed, i);
      TurnOfRotation(groups, seed, i);
      if h % hostNum == Index(key) {
        HostInList(Index(key), hostNum, groups, seed, h);
      }
    }

    lemma NoneVisited(key: Bytes, seed: nat)
      requires hostNum > 0 && groups > 0
      ensures forall h: nat :: !Visited(h, key, seed, 0)
    {
    }

    /** After all groups, exactly the hosts of the key's class are visited. */
    lemma VisitedAll(key: Bytes, seed: nat, h: nat)
      requires hostNum > 0 && groups > 0 && h < hostNum * groups
      ensures Visited(h, key, seed, groups) <==> h % hostNum == Index(key)
    {
      if h % hostNum == Index(key) {
        HostInList(Index(key), hostNum, groups, seed, h);
      }
    }

    /** What a write leaves when the first i hosts of the list carry it out. */
    ghost predicate Written(before: seq<Store>, key: Bytes, op: Write, seed: nat, i: nat)
      requires Shape()
      reads this
    {
      && |stores| == |before|
      && forall h: nat | h < |stores| ::
           stores[h] == if Visited(h, key, seed, i) then Applied(before[h], key, op) else before[h]
    }

    /**
     * A write that stopped on the way leaves the cluster standing for some map exactly when no
     * host, or every host of the class, carried it out, or when it changes nothing.
     */
    lemma PartialWrite(before: seq<Store>, m: Store, key: Bytes, op: Write, seed: nat, i: nat)
      requires Shape() && |before| == |stores| && Stands(before, m)
      requires Written(before, key, op, seed, i)
      ensures (exists m': Store :: Stands(stores, m')) <==> i == 0 || i >= groups || Applied(m, key, op) == m
    {
      if i == 0 || i >= groups || Applied(m, key, op) == m {
        var m' := if i == 0 then m else Applied(m, key, op);
        forall h: nat | h < |stores|
          ensures stores[h] == Slice(m', IndexFn(), h % hostNum)
        {
          VisitedAll(key, seed, h);
          SliceApplied(m, IndexFn(), h % hostNum, key, op);
        }
        assert Stands(stores, m');
      } else {
        var x, y := IndexAt(Index(key), hostNum, groups, seed, 0), IndexAt(Index(key), hostNum, groups, seed, i);
        IndexInClass(Index(key), hostNum, groups, seed, 0);
        IndexInClass(Index(key), hostNum, groups, seed, i);
        TurnOfRotation(groups, seed, 0);
        TurnOfRotation(groups, seed, i);
        var part := Slice(m, IndexFn(), Index(key));
        assert stores[x] == Applied(part, key, op) && stores[y] == part;
        NoOpOnSlice(m, key, op);
      }
    }

    lemma NoOpOnSlice(m: Store, key: Bytes, op: Write)
      requires hostNum > 0
      ensures var part := Slice(m, IndexFn(), Index(key)); Applied(part, key, op) == part ==> Applied(m, key, op) == m
    {
      var part := Slice(m, IndexFn(), Index(key));
      if Applied(part, key, op) == part {
        assert key in part <==> key in m;
        assert op.Put? ==> part[key] == op.value;
        assert Applied(m, key, op) == m;
      }
    }

    /** Nothing but the key, on hosts of its class, may have changed. */
    ghost predicate OnlyKey(before: seq<Store>, key: Bytes)
      requires Shape()
      reads this
    {
      && |stores| == |before|
      && forall h: nat, k: Bytes | h < |stores| && (k != key || h % hostNum != Index(key)) ::
           Lookup(stores[h], k) == Lookup(before[h], k)
    }

    /** One host call; a failed one may or may not have been carried out. */
    method HostWrite(x: nat, key: Bytes, op: Write, a: Answer) returns (ok: bool, count: nat)
      requires x < |stores|
      modifies this`stores
      ensures ok == a.Answered? && (ok ==> count == Reported(old(stores)[x], key, op))
      ensures stores == if a.LostBefore? then old(stores) else old(stores)[x := Applied(old(stores)[x], key, op)]
    {
      ok, count := a.Answered?, Reported(stores[x], key, op);
      if !a.LostBefore? {
        stores := stores[x := Applied(stores[x], key, op)];
      }
    }

    /** FOR_EACH_GROUP_WRITE: true exactly when every replica answers, and then the cluster is the updated map. */
    method ForEachGroupWrite(key: Bytes, op: Write, seed: nat, net: Net) returns (ok: bool, count: nat)
      requires Refines()
      modifies this
      ensures Shape()
      ensures ok <==> AllAnswered(net, groups)
      ensures Written(old(stores), key, op, seed, CarriedOut(net, 0, groups))
      ensures ok ==> Refines() && contents == Applied(old(contents), key, op)
      ensures ok ==> count == Reported(old(contents), key, op)
      ensures !ok ==> contents == old(contents) && OnlyKey(old(stores), key)
    {
      hide Slice, Applied, IndexAt, Reported;
      ok, count := WriteGroups(key, op, seed, net);
      OnlyKeyChanged(old(stores), key, op, seed, CarriedOut(net, 0, groups));
      if ok {
        contents := Applied(contents, key, op);
        forall h: nat | h < |stores|
          ensures stores[h] == Slice(contents, IndexFn(), h % hostNum)
        {
          VisitedAll(key, seed, h);
          SliceApplied(old(contents), IndexFn(), h % hostNum, key, op);
        }
      }
    }

    /** The loop over the hosts of the key. */
    method WriteGroups(key: Bytes, op: Write, seed: nat, net: Net) returns (ok: bool, count: nat)
      requires Refines()
      modifies this`stores
      ensures Shape()
      ensures ok <==> AllAnswered(net, groups)
      ensures ok ==> CarriedOut(net, 0, groups) == groups && count == Reported(contents, key, op)
      ensures Written(old(stores), key, op, seed, CarriedOut(net, 0, groups))
    {
      hide Slice, Applied, IndexAt, Reported, Redis2P.Visited;
      var indexes := KeyClient(key, seed);
      ghost var before := stores;
      NoneVisited(key, seed);
      var i := 0;
      count := 0;
      while i < groups
        invariant 0 <= i <= groups && Shape()
        invariant Written(before, key, op, seed, i)
        invariant CarriedOut(net, 0, groups) == CarriedOut(net, i, groups)
        invariant forall j: nat | j < i :: net(j).Answered?
        invariant i > 0 ==> count == Reported(contents, key, op)
      {
        forall h: nat | h < |stores|
          ensures Visited(h, key, seed, i + 1) <==> Visited(h, key, seed, i) || h == indexes[i]
          ensures h == indexes[i] ==> !Visited(h, key, seed, i)
        {
          VisitNext(key, seed, i, h);
        }
        ReportedInSlice(indexes[i], key, op, seed, i);
        ok, count := HostWrite(indexes[i], key, op, net(i));
        if !ok {
          assert !net(i).Answered?;
          return;
        }
        i := i + 1;
      }
      ok := true;
    }

    lemma ReportedInSlice(x: nat, key: Bytes, op: Write, seed: nat, i: nat)
      requires hostNum > 0 && groups > 0 && x == IndexAt(Index(key), hostNum, groups, seed, i)
      ensures Reported(Slice(contents, IndexFn(), x % hostNum), key, op) == Reported(contents, key, op)
    {
      IndexInClass(Index(key), hostNum, groups, seed, i);
    }

    lemma OnlyKeyChanged(before: seq<Store>, key: Bytes, op: Write, seed: nat, i: nat)
      requires Shape() && |stores| == |before| && Written(before, key, op, seed, i)
      ensures OnlyKey(before, key)
    {
    }

    method Set(key: Bytes, value: Bytes, seed: nat, net: Net) returns (ok: bool)
      requires Refines()
      modifies this
      ensures Shape()
      ensures ok <==> AllAnswered(net, groups)
      ensures Written(old(stores), key, Put(value), seed, CarriedOut(net, 0, groups))
      ensures ok ==> Refines() && contents == old(contents)[key := value]
      ensures !ok ==> contents == old(contents) && OnlyKey(old(stores), key)
    {
      var count;
      ok, count := ForEachGroupWrite(key, Put(value), seed, net);
    }

    method Del(key: Bytes, seed: nat, net: Net) returns (ok: bool, deleted: nat)
      requires Refines()
      modifies this
      ensures Shape()
      ensures ok <==> AllAnswered(net, groups)
      ensures Written(old(stores), key, Remove, seed, CarriedOut(net, 0, groups))
      ensures ok ==> Refines() && contents == old(contents) - {key}
      ensures ok ==> deleted == if key in old(contents) then 1 else 0
      ensures !ok ==> contents == old(contents) && OnlyKey(old(stores), key)
    {
      ok, deleted := ForEachGroupWrite(key, Remove, seed, net);
    }

    /**
     * What a run of writes that stopped at a key leaves: the map of the keys before it, with the
     * hosts of that key up to its first failed call changed as well.
     */
    ghost predicate StoppedAt(key: Bytes, op: Write, seed: nat, net: Net)
      requires Shape()
      reads this
    {
      Written(StoresOf(contents), key, op, seed, CarriedOut(net, 0, groups))
    }

    /** del of a list: refuses the empty list, and counts the distinct keys that were present. */
    method DelMany(keys: seq<Bytes>, nets: nat -> Net) returns (ok: bool, total: nat)
      requires Refines()
      modifies this
      ensures Shape()
      ensures ok <==> keys != [] && forall n: nat | n < |keys| :: AllAnswered(nets(n), groups)
      ensures var n := FirstFailure(nets, 0, |keys|, groups);
        && contents == old(contents) - KeySet(keys[..n])
        && (ok ==> Refines() && total == |Present(keys, old(contents))|)
        && (!ok && keys != [] ==> n < |keys| && StoppedAt(keys[n], Remove, 0, nets(n)))
      ensures keys == [] ==> stores == old(stores)
    {
      total := 0;
      ghost var m := contents;
      assert contents == m - KeySet(keys[..0]);
      if keys == [] {
        return false, total;
      }
      var n := 0;
      while n < |keys|
        invariant 0 <= n <= |keys| && Refines()
        invariant contents == m - KeySet(keys[..n])
        invariant total == |Present(keys[..n], m)|
        invariant FirstFailure(nets, 0, |keys|, groups) == FirstFailure(nets, n, |keys|, groups)
      {
        var deleted;
        PresentNext(keys, n, m);
        assert stores == StoresOf(contents);
        ok, deleted := Del(keys[n], 0, nets(n));
        if !ok {
          return;
        }
        total := total + deleted;
        n := n + 1;
      }
      assert keys[..n] == keys;
      ok := true;
    }

    /** FOR_EACH_GROUP_READ of GET: the first replica that answers gives the map's value. */
    method Get(key: Bytes, seed: nat, net: Net) returns (ok: bool, value: Option<Bytes>)
      requires Refines()
      ensures ok <==> Readable(contents, key, groups, net)
      ensures ok ==> value == if key in contents then Some(contents[key]) else None
    {
      var indexes := KeyClient(key, seed);
      var i := 0;
      value := None;
      while i < groups
        invariant 0 <= i <= groups
        invariant Lookup(contents, key) == Some([]) || forall j: nat | j < i :: !net(j).Answered?
      {
        IndexInClass(Index(key), hostNum, groups, seed, i);
        assert Lookup(stores[indexes[i]], key) == Lookup(contents, key);
        var r := HostGet(stores[indexes[i]], key, net(i));
        if r.Some? {
          assert net(i).Answered?;
          return true, r.value;
        }
        i := i + 1;
      }
      ok := false;
    }

    /** mget is positional. */
    method MGet(keys: seq<Bytes>, seed: nat, nets: nat -> Net) returns (ok: bool, values: seq<Option<Bytes>>)
      requires Refines()
      ensures ok <==> forall n: nat | n < |keys| :: Readable(contents, keys[n], groups, nets(n))
      ensures ok ==> |values| == |keys|
      ensures ok ==> forall n | 0 <= n < |keys| ::
                values[n] == if keys[n] in contents then Some(contents[keys[n]]) else None
      ensures !ok ==> values == []
    {
      values := [];
      var n := 0;
      while n < |keys|
        invariant 0 <= n <= |keys| && |values| == n
        invariant forall p | 0 <= p < n :: values[p] == Lookup(contents, keys[p])
        invariant forall p: nat | p < n :: Readable(contents, keys[p], groups, nets(p))
      {
        hide Readable;
        var r, v := Get(keys[n], seed, nets(n));
        if !r {
          return false, [];
        }
        values := values + [v];
        n := n + 1;
      }
      ok := true;
    }

    method MSet(keys: seq<Bytes>, values: seq<Bytes>, seed: nat, nets: nat -> Net) returns (ok: bool)
      requires Refines()
      modifies this
      ensures Shape()
      ensures ok <==> |keys| == |values| && forall n: nat | n < |keys| :: AllAnswered(nets(n), groups)
      ensures |keys| == |values| ==>
        var n := FirstFailure(nets, 0, |keys|, groups);
        && contents == PutAll(old(contents), keys[..n], values[..n])
        && (ok ==> Refines() && contents == PutAll(old(contents), keys, values))
        && (!ok ==> n < |keys| && StoppedAt(keys[n], Put(values[n]), seed, nets(n)))
      ensures |keys| != |values| ==> stores == old(stores) && contents == old(contents)
    {
      if |keys| != |values| {
        return false;
      }
      var n := 0;
      while n < |keys|
        invariant 0 <= n <= |keys| && Refines()
        invariant contents == PutAll(old(contents), keys[..n], values[..n])
        invariant FirstFailure(nets, 0, |keys|, groups) == FirstFailure(nets, n, |keys|, groups)
      {
        assert stores == StoresOf(contents);
        ok := Set(keys[n], values[n], seed, nets(n));
        if !ok {
          return;
        }
        assert keys[..n + 1][..n] == keys[..n] && values[..n + 1][..n] == values[..n];
        n := n + 1;
      }
      assert keys[..n] == keys && values[..n] == values;
      ok := true;
    }

    /**
     * keys: the hosts of one group together list every matching key of the map exactly once.
     * 'lists' are the servers' answers, each listing its matching keys once, in any order.
     */
    method Keys(matching: Bytes -> bool, seed: nat, lists: nat -> seq<Bytes>, net: Net)
      returns (ok: bool, keys: seq<Bytes>)
      requires Refines()
      requires forall i: nat | i < hostNum && BlockHost(seed, i) < |stores| ::
                 Listing(lists(i), stores[BlockHost(seed, i)], matching)
      ensures ok <==> forall i: nat | i < hostNum :: net(i).Answered? && [] !in lists(i)
      ensures ok ==> Listing(keys, contents, matching)
      ensures !ok ==> keys == []
    {
      keys := [];
      var indexes := GroupClient(seed);
      var i := 0;
      while i < hostNum
        invariant 0 <= i <= hostNum
        invariant forall j: nat | j < i :: net(j).Answered? && [] !in lists(j)
        invariant NoDuplicates(keys)
        invariant forall k: Bytes :: k in keys <==> k in contents && matching(k) && Index(k) < i
      {
        var list := HostKeys(lists(i), net(i));
        if list.None? {
          return false, [];
        }
        assert Listing(list.value, stores[indexes[i]], matching);
        assert stores[indexes[i]] == Slice(contents, IndexFn(), i);
        assert forall k: Bytes :: k in list.value <==> k in contents && matching(k) && Index(k) == i;
        NoDuplicatesConcat(keys, list.value);
        keys := keys + list.value;
        i := i + 1;
      }
      ok := true;
    }
  }

  /** The public constructor, whose exception is the None here. */
  method NewRedis2P(hosts: nat, partitions: int, hash: Bytes -> nat) returns (client: Option<Redis2P>)
    requires hosts < TWO_64 - 0x8000_0000 && -0x8000_0000 <= partitions < 0x8000_0000
    ensures client.Some? <==>
            1 <= partitions <= hosts && hosts / partitions > 0 && hosts % (hosts / partitions) == 0
    ensures client.Some? ==>
              var c := client.value;
              && fresh(c) && c.Refines() && c.contents == map[] && c.hash == hash
              && |c.stores| == hosts && c.groups * c.hostNum == hosts && c.hostNum >= partitions >= 1
              && c.groups == hosts / partitions
  {
    AcceptedShape(hosts, partitions);
    var g := InnerInit(hosts, partitions);
    if g.None? {
      return None;
    }
    var c := new Redis2P(hash, g.value, hosts / g.value);
    client := Some(c);
  }

  lemma NoDuplicatesConcat(a: seq<Bytes>, b: seq<Bytes>)
    requires NoDuplicates(a) && NoDuplicates(b) && forall k | k in a :: k !in b
    ensures NoDuplicates(a + b)
  {
    forall i, j | 0 <= i < j < |a + b|
      ensures (a + b)[i] != (a + b)[j]
    {
      if i < |a| <= j {
        assert (a + b)[i] in a && (a + b)[j] in b;
      }
    }
  }

  lemma PresentNext(keys: seq<Bytes>, n: nat, m: Store)
    requires n < |keys|
    ensures var now := m - KeySet(keys[..n]);
      && |Present(keys[..n + 1], m)| == |Present(keys[..n], m)| + (if keys[n] in now then 1 else 0)
      && now - {keys[n]} == m - KeySet(keys[..n + 1])
  {
    var key := keys[n];
    assert keys[..n + 1] == keys[..n] + [key];
    if key in m && key !in keys[..n] {
      assert Present(keys[..n + 1], m) == Present(keys[..n], m) + {key};
    } else {
      assert Present(keys[..n + 1], m) == Present(keys[..n], m);
    }
  }
}
