// RedisTss::Impl: the connection pool under any interleaving of threads.
module Pool {
  import opened Wire

  type Client = nat
  type Thread = nat

  datatype Flag = ThreadSpecific | NotThreadSpecific

  // Where a thread stands inside get or put, between two atomic steps.
  datatype Pc =
    | Idle
    | Missing(flag: Flag)                   // get found the free list empty and must create
    | Ready(flag: Flag, client: Client)     // get has a client, not stored or returned yet
    | Putting(client: Client)               // put_free_redis, before taking the lock
    | Deleting(client: Client)              // the free list was full, lock released

  datatype State = State(
    free: seq<Client>, poolSize: nat, slots: map<Thread, Client>, held: set<Client>, deleted: set<Client>,
    created: nat, pcs: map<Thread, Pc>)

  datatype Step =
    | Lookup(t: Thread, flag: Flag)         // get, up to and including get_free_redis
    | Create(t: Thread)                     // new Redis2 or new Redis2P
    | Finish(t: Thread)                     // client_.reset, or return to the caller
    | Release(t: Thread)                    // put(slot, kThreadSpecific), or thread exit: client_.release
    | Return(t: Thread, client: Client)     // put(client, kNotThreadSpecific)
    | Push(t: Thread)                       // the locked part of put_free_redis
    | Delete(t: Thread)

  function PcOf(s: State, t: Thread): Pc {
    if t in s.pcs then s.pcs[t] else Idle
  }

  function Goto(s: State, t: Thread, pc: Pc): State {
    s.(pcs := if pc.Idle? then s.pcs - {t} else s.pcs[t := pc])
  }

  /** get_free_redis: the last client of the free list, if any. */
  function PopFree(free: seq<Client>): (Option<Client>, seq<Client>) {
    if free == [] then (None, free) else (Some(free[|free| - 1]), free[..|free| - 1])
  }

  /** The locked part of put_free_redis: the new free list, or None when the client must be deleted. */
  function PushFree(free: seq<Client>, poolSize: nat, c: Client): Option<seq<Client>> {
    if |free| >= poolSize then None else Some(free + [c])
  }

  /** The steps that the documented usages allow. */
  predicate Enabled(s: State, a: Step) {
    match a
    case Lookup(t, flag) => PcOf(s, t).Idle?
    case Create(t) => PcOf(s, t).Missing?
    case Finish(t) => PcOf(s, t).Ready?
    case Release(t) => PcOf(s, t).Idle? && t in s.slots
    case Return(t, c) => PcOf(s, t).Idle? && c in s.held
    case Push(t) => PcOf(s, t).Putting?
    case Delete(t) => PcOf(s, t).Deleting?
  }

  function Next(s: State, a: Step): State
    requires Enabled(s, a)
  {
    match a
    case Lookup(t, flag) =>
      if flag.ThreadSpecific? && t in s.slots then s
      else
        var (c, rest) := PopFree(s.free);
        Goto(s.(free := rest), t, if c.None? then Missing(flag) else Ready(flag, c.value))
    case Create(t) => Goto(s.(created := s.created + 1), t, Ready(PcOf(s, t).flag, s.created))
    case Finish(t) =>
      var pc := PcOf(s, t);
      if pc.flag.ThreadSpecific? then Goto(s.(slots := s.slots[t := pc.client]), t, Idle)
      else Goto(s.(held := s.held + {pc.client}), t, Idle)
    case Release(t) => Goto(s.(slots := s.slots - {t}), t, Putting(s.slots[t]))
    case Return(t, c) => Goto(s.(held := s.held - {c}), t, Putting(c))
    case Push(t) =>
      var c := PcOf(s, t).client;
      var f := PushFree(s.free, s.poolSize, c);
      if f.None? then Goto(s, t, Deleting(c)) else Goto(s.(free := f.value), t, Idle)
    case Delete(t) => Goto(s.(deleted := s.deleted + {PcOf(s, t).client}), t, Idle)
  }

  ghost predicate IsRun(s: State, steps: seq<Step>)
    decreases |steps|
  {
    steps == [] || (Enabled(s, steps[0]) && IsRun(Next(s, steps[0]), steps[1..]))
  }

  function Run(s: State, steps: seq<Step>): State
    requires IsRun(s, steps)
    decreases |steps|
  {
    if steps == [] then s else Run(Next(s, steps[0]), steps[1..])
  }

  function Start(poolSize: nat): State {
    State([], poolSize, map[], {}, {}, 0, map[])
  }

  // ---------- ownership ----------

  datatype Place = InFree(i: nat) | InSlot(t: Thread) | InHand | InTransit(t: Thread) | Gone

  /** Client c is at place p. */
  predicate At(s: State, c: Client, p: Place) {
    match p
    case InFree(i) => i < |s.free| && s.free[i] == c
    case InSlot(t) => t in s.slots && s.slots[t] == c
    case InHand => c in s.held
    case InTransit(t) =>
      var pc := PcOf(s, t);
      (pc.Ready? || pc.Putting? || pc.Deleting?) && pc.client == c
    case Gone => c in s.deleted
  }

  ghost predicate Somewhere(s: State, c: Client) {
    exists p: Place :: At(s, c, p)
  }

  /** A thread on its way to fill its slot finds it empty. */
  predicate FillingEmptySlot(s: State, t: Thread) {
    var pc := PcOf(s, t);
    (pc.Missing? || pc.Ready?) && pc.flag.ThreadSpecific? ==> t !in s.slots
  }

  /** Each created client is at exactly one place, nothing else is anywhere, and the free list is bounded. */
  ghost predicate Owned(s: State) {
    && (forall c: Client, p: Place, q: Place :: At(s, c, p) && At(s, c, q) ==> p == q)
    && (forall c: Client | c < s.created :: Somewhere(s, c))
    && (forall c: Client, p: Place :: At(s, c, p) ==> c < s.created)
    && |s.free| <= s.poolSize
    && (forall t: Thread :: FillingEmptySlot(s, t))
  }

  /** A step that only takes one client from one place to another keeps all clients owned. */
  lemma MoveKeeps(s: State, s': State, c: Client, q: Place)
    requires Owned(s) && c < s.created && s'.created == s.created && |s'.free| <= s'.poolSize
    requires forall t: Thread :: FillingEmptySlot(s', t)
    requires forall x: Client, r: Place :: At(s', x, r) <==> if x == c then r == q else At(s, x, r)
    ensures Owned(s')
  {
    assert At(s', c, q);
    forall x: Client | x < s'.created
      ensures Somewhere(s', x)
    {
      if x != c {
        assert Somewhere(s, x);
        var p: Place :| At(s, x, p);
        assert At(s', x, p);
      }
    }
  }

  lemma TakeFromFree(s: State, a: Step)
    requires Owned(s) && Enabled(s, a) && a.Lookup?
    ensures Owned(Next(s, a))
  {
    var t := a.t;
    var s' := Next(s, a);
    if a.flag.ThreadSpecific? && t in s.slots {
    } else if s.free == [] {
      assert forall x: Client, r: Place :: At(s', x, r) <==> At(s, x, r);
      assert forall u: Thread :: FillingEmptySlot(s, u) ==> FillingEmptySlot(s', u);
      assert forall c: Client :: Somewhere(s, c) ==> Somewhere(s', c);
    } else {
      var i := |s.free| - 1;
      var c := s.free[i];
      assert At(s, c, InFree(i));
      forall x: Client, r: Place
        ensures At(s', x, r) <==> if x == c then r == InTransit(t) else At(s, x, r)
      {
        if x == c && At(s, x, r) {
          assert r == InFree(i);
        }
      }
      assert forall u: Thread :: FillingEmptySlot(s, u) ==> FillingEmptySlot(s', u);
      MoveKeeps(s, s', c, InTransit(t));
    }
  }

  lemma CreateKeeps(s: State, a: Step)
    requires Owned(s) && Enabled(s, a) && a.Create?
    ensures Owned(Next(s, a))
  {
    var s' := Next(s, a);
    assert forall x: Client, r: Place :: At(s', x, r) <==> At(s, x, r) || (x == s.created && r == InTransit(a.t));
    assert At(s', s.created, InTransit(a.t));
    forall x: Client | x < s'.created
      ensures Somewhere(s', x)
    {
      if x < s.created {
        assert Somewhere(s, x);
        var p: Place :| At(s, x, p);
        assert At(s', x, p);
      }
    }
    assert forall u: Thread :: FillingEmptySlot(s, u) ==> FillingEmptySlot(s', u);
  }

  /** The place that a client leaves and the one it gets to, for the steps that move one. */
  function Moved(s: State, a: Step): (Client, Place, Place)
    requires Enabled(s, a) && !a.Lookup? && !a.Create?
  {
    match a
    case Finish(t) =>
      var pc := PcOf(s, t);
      (pc.client, InTransit(t), if pc.flag.ThreadSpecific? then InSlot(t) else InHand)
    case Release(t) => (s.slots[t], InSlot(t), InTransit(t))
    case Return(t, c) => (c, InHand, InTransit(t))
    case Push(t) =>
      var c := PcOf(s, t).client;
      (c, InTransit(t), if |s.free| >= s.poolSize then InTransit(t) else InFree(|s.free|))
    case Delete(t) => (PcOf(s, t).client, InTransit(t), Gone)
  }

  lemma MovingStepKeeps(s: State, a: Step)
    requires Owned(s) && Enabled(s, a) && !a.Lookup? && !a.Create?
    ensures Owned(Next(s, a))
  {
    var s' := Next(s, a);
    var (c, p, q) := Moved(s, a);
    assert At(s, c, p);
    assert FillingEmptySlot(s, a.t);
    forall x: Client, r: Place
      ensures At(s', x, r) <==> if x == c then r == q else At(s, x, r)
    {
      if x == c && At(s, x, r) {
        assert r == p;
      }
    }
    assert forall u: Thread :: FillingEmptySlot(s, u) ==> FillingEmptySlot(s', u);
    MoveKeeps(s, s', c, q);
  }

  lemma StepKeepsOwned(s: State, a: Step)
    requires Owned(s) && Enabled(s, a)
    ensures Owned(Next(s, a))
  {
    hide *;
    if a.Lookup? {
      TakeFromFree(s, a);
    } else if a.Create? {
      CreateKeeps(s, a);
    } else {
      MovingStepKeeps(s, a);
    }
  }

  /** Over every interleaving each created client has exactly one owner and the free list stays bounded. */
  lemma {:induction false} PoolOwnership(s: State, steps: seq<Step>)
    requires Owned(s) && IsRun(s, steps)
    ensures Owned(Run(s, steps))
    decreases |steps|
  {
    hide Owned, Next, Enabled;
    if steps != [] {
      StepKeepsOwned(s, steps[0]);
      PoolOwnership(Next(s, steps[0]), steps[1..]);
    }
  }

  lemma StartOwned(poolSize: nat)
    ensures Owned(Start(poolSize))
  {
  }

  /** Between operations a client is free, in one slot, in one hand or deleted. */
  lemma QuietPlaces(s: State, c: Client)
    requires Owned(s) && c < s.created && forall t: Thread :: PcOf(s, t).Idle?
    ensures exists p: Place :: At(s, c, p) && !p.InTransit?
  {
    assert Somewhere(s, c);
    var p: Place :| At(s, c, p);
    assert !p.InTransit?;
  }

  // ---------- thread-specific gets ----------

  /** Until its own put or exit, a thread keeps its client, whatever the others do. */
  lemma {:induction false} SlotStays(s: State, steps: seq<Step>, t: Thread)
    requires Owned(s) && IsRun(s, steps) && t in s.slots
    requires forall k | 0 <= k < |steps| :: steps[k] != Release(t)
    ensures t in Run(s, steps).slots && Run(s, steps).slots[t] == s.slots[t]
    decreases |steps|
  {
    if steps != [] {
      var a := steps[0];
      var s' := Next(s, a);
      assert FillingEmptySlot(s, t);
      StepKeepsOwned(s, a);
      assert t in s'.slots && s'.slots[t] == s.slots[t];
      SlotStays(s', steps[1..], t);
    }
  }

  /** put(client, kNotThreadSpecific) on a client that sits in a slot gives it two owners. */
  lemma MisuseDoublesOwnership(s: State, t: Thread, u: Thread)
    requires t in s.slots
    ensures !Owned(Goto(s, u, Putting(s.slots[t])))
  {
    var s' := Goto(s, u, Putting(s.slots[t]));
    assert At(s', s.slots[t], InSlot(t)) && At(s', s.slots[t], InTransit(u));
  }

  // ---------- the operations, uninterrupted ----------

  lemma RunOne(s: State, a: Step)
    requires Enabled(s, a)
    ensures IsRun(s, [a]) && Run(s, [a]) == Next(s, a)
  {
    assert [a][1..] == [];
    assert IsRun(Next(s, a), []);
  }

  lemma RunMore(s: State, a: Step, steps: seq<Step>)
    requires Enabled(s, a) && IsRun(Next(s, a), steps)
    ensures IsRun(s, [a] + steps) && Run(s, [a] + steps) == Run(Next(s, a), steps)
  {
    assert ([a] + steps)[1..] == steps;
  }

  function GetSteps(s: State, t: Thread, flag: Flag): seq<Step> {
    if flag.ThreadSpecific? && t in s.slots then [Lookup(t, flag)]
    else if s.free == [] then [Lookup(t, flag)] + ([Create(t)] + [Finish(t)])
    else [Lookup(t, flag)] + [Finish(t)]
  }

  /** A client got in a documented way: the thread's own, put back as such, or one in a caller's hands. */
  predicate Proper(s: State, t: Thread, c: Client, flag: Flag) {
    OwnSlot(s, t, c, flag) || c in s.held
  }

  predicate OwnSlot(s: State, t: Thread, c: Client, flag: Flag) {
    flag.ThreadSpecific? && t in s.slots && s.slots[t] == c
  }

  function PutSteps(s: State, t: Thread, c: Client, flag: Flag): seq<Step> {
    var first := if OwnSlot(s, t, c, flag) then Release(t) else Return(t, c);
    if |s.free| >= s.poolSize then [first] + ([Push(t)] + [Delete(t)]) else [first] + [Push(t)]
  }

  /** What put does with any client. */
  function PutState(s: State, t: Thread, c: Client, flag: Flag): State {
    var u := if OwnSlot(s, t, c, flag) then s.(slots := s.slots - {t}) else s.(held := s.held - {c});
    if |s.free| >= s.poolSize then u.(deleted := u.deleted + {c}) else u.(free := u.free + [c])
  }

  class RedisTss {
    const poolSize: nat
    var free: seq<Client>
    var slots: map<Thread, Client>
    var created: nat                 // clients made so far; the next one gets this number
    ghost var held: set<Client>      // clients in the hands of callers
    ghost var deleted: set<Client>

    ghost function View(): State
      reads this
    {
      State(free, poolSize, slots, held, deleted, created, map[])
    }

    constructor (poolSize: nat)
      ensures View() == Start(poolSize) && Owned(View())
    {
      this.poolSize := poolSize;
      free, slots, created, held, deleted := [], map[], 0, {}, {};
      new;
      StartOwned(poolSize);
    }

    method GetFreeRedis() returns (c: Option<Client>)
      modifies this`free
      ensures (c, free) == PopFree(old(free))
      ensures old(free) == [] ==> c == None && free == []
      ensures old(free) != [] ==> c.Some? && old(free) == free + [c.value]
    {
      if free == [] {
        return None;
      }
      c := Some(free[|free| - 1]);
      free := free[..|free| - 1];
    }

    method GetFreeOrCreateRedis() returns (c: Client)
      modifies this`free, this`created
      ensures old(free) == [] ==> c == old(created) && created == old(created) + 1 && free == []
      ensures old(free) != [] ==> old(free) == free + [c] && created == old(created)
      ensures free == PopFree(old(free)).1
    {
      var found := GetFreeRedis();
      if found.Some? {
        return found.value;
      }
      c := created;
      created := created + 1;
    }

    /** Deletes the client when the free list is full. */
    method PutFreeRedis(c: Client)
      modifies this`free, this`deleted
      ensures |old(free)| < poolSize ==> free == old(free) + [c] && deleted == old(deleted)
      ensures |old(free)| >= poolSize ==> free == old(free) && deleted == old(deleted) + {c}
    {
      if |free| >= poolSize {
        deleted := deleted + {c};
      } else {
        free := free + [c];
      }
    }

    /** get: a run of atomic steps that ends with the client in the caller's slot or hands. */
    method Get(t: Thread, flag: Flag) returns (c: Client)
      requires Owned(View())
      modifies this
      ensures IsRun(old(View()), GetSteps(old(View()), t, flag))
      ensures View() == Run(old(View()), GetSteps(old(View()), t, flag)) && Owned(View())
      ensures flag.ThreadSpecific? ==> t in slots && slots[t] == c && (t in old(slots) ==> c == old(slots)[t])
      ensures flag.NotThreadSpecific? ==> c in held && c !in old(held)
    {
      ghost var s := View();
      GetRun(s, t, flag);
      if flag.ThreadSpecific? && t in slots {
        c := slots[t];
      } else {
        assert free != [] ==> At(s, free[|free| - 1], InFree(|free| - 1));
        assert forall x: Client | x in held :: At(s, x, InHand);
        c := GetFreeOrCreateRedis();
        if flag.ThreadSpecific? {
          slots := slots[t := c];
        } else {
          held := held + {c};
        }
      }
    }

    /**
     * put: NULL is ignored; a client got in a documented way goes through a run of the atomic
     * steps; any other one ends up with two owners.
     */
    method Put(t: Thread, redis: Option<Client>, flag: Flag)
      requires Owned(View())
      requires redis.Some? ==> redis.value < created && redis.value !in deleted
      modifies this
      ensures redis.None? ==> View() == old(View())
      ensures redis.Some? ==> View() == PutState(old(View()), t, redis.value, flag)
      ensures redis.Some? && |old(free)| < poolSize ==> free == old(free) + [redis.value] && deleted == old(deleted)
      ensures redis.Some? && |old(free)| >= poolSize ==> free == old(free) && deleted == old(deleted) + {redis.value}
      ensures redis.Some? ==>
        slots == if flag.ThreadSpecific? && t in old(slots) && old(slots)[t] == redis.value then old(slots) - {t}
                 else old(slots)
      ensures Owned(View()) <==> redis.None? || Proper(old(View()), t, redis.value, flag)
      ensures redis.Some? && Proper(old(View()), t, redis.value, flag) ==>
                && IsRun(old(View()), PutSteps(old(View()), t, redis.value, flag))
                && View() == Run(old(View()), PutSteps(old(View()), t, redis.value, flag))
    {
      hide Owned, Run, IsRun;
      if redis.None? {
        return;
      }
      var c := redis.value;
      ghost var s := View();
      if Proper(s, t, c, flag) {
        PutRun(s, t, c, flag);
      } else {
        ImproperPutDoubles(s, t, c, flag);
      }
      if flag.ThreadSpecific? && t in slots && slots[t] == c {
        slots := slots - {t};
      } else {
        held := held - {c};
      }
      PutFreeRedis(c);
    }
  }

  /** What get amounts to when nothing interrupts it. */
  lemma GetRun(s: State, t: Thread, flag: Flag)
    requires Owned(s) && s.pcs == map[]
    ensures IsRun(s, GetSteps(s, t, flag))
    ensures var s' := Run(s, GetSteps(s, t, flag));
      && Owned(s')
      && s' == if flag.ThreadSpecific? && t in s.slots then s
               else
                 var c := if s.free == [] then s.created else s.free[|s.free| - 1];
                 var u := s.(free := PopFree(s.free).1, created := if s.free == [] then s.created + 1 else s.created);
                 if flag.ThreadSpecific? then u.(slots := u.slots[t := c]) else u.(held := u.held + {c})
  {
    hide Owned, Run, IsRun;
    var a := Lookup(t, flag);
    var s1 := Next(s, a);
    if flag.ThreadSpecific? && t in s.slots {
      RunOne(s, a);
    } else if s.free == [] {
      var s2 := Next(s1, Create(t));
      RunOne(s2, Finish(t));
      RunMore(s1, Create(t), [Finish(t)]);
      RunMore(s, a, [Create(t)] + [Finish(t)]);
    } else {
      RunOne(s1, Finish(t));
      RunMore(s, a, [Finish(t)]);
    }
    PoolOwnership(s, GetSteps(s, t, flag));
  }

  lemma PutRun(s: State, t: Thread, c: Client, flag: Flag)
    requires Owned(s) && s.pcs == map[] && Proper(s, t, c, flag)
    ensures IsRun(s, PutSteps(s, t, c, flag))
    ensures var s' := Run(s, PutSteps(s, t, c, flag)); Owned(s') && s' == PutState(s, t, c, flag)
  {
    hide Owned, Run, IsRun;
    var a := if OwnSlot(s, t, c, flag) then Release(t) else Return(t, c);
    var s1 := Next(s, a);
    var s2 := Next(s1, Push(t));
    if |s.free| >= s.poolSize {
      RunOne(s2, Delete(t));
      RunMore(s1, Push(t), [Delete(t)]);
      RunMore(s, a, [Push(t)] + [Delete(t)]);
    } else {
      RunOne(s1, Push(t));
      RunMore(s, a, [Push(t)]);
    }
    PoolOwnership(s, PutSteps(s, t, c, flag));
  }

  /** Putting back a client that is free already, or in a slot that is not given up, gives it two owners. */
  lemma ImproperPutDoubles(s: State, t: Thread, c: Client, flag: Flag)
    requires Owned(s) && s.pcs == map[] && c < s.created && c !in s.deleted && !Proper(s, t, c, flag)
    ensures !Owned(PutState(s, t, c, flag))
  {
    var s' := PutState(s, t, c, flag);
    assert Somewhere(s, c);
    var p: Place :| At(s, c, p);
    assert At(s', c, p);
    var q := if |s.free| >= s.poolSize then Gone else InFree(|s.free|);
    assert At(s', c, q) && p != q;
  }
}
