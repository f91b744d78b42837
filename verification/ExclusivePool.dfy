/** ExclusivePool (deploy/sync/exclusive_pool.go): one mutex per identity, made on demand and thrown
    away with its last user while other goroutines run. */
module ExclusivePool {
  import opened ByteStrings

  /** Where a goroutine is: between the two halves of CheckIn, behind CheckIn, or between the two halves
      of CheckOut. */
  datatype Proc<M> =
    | Waiting(identity: string, lock: M)
    | Holding(identity: string, lock: M)
    | Leaving(identity: string, lock: M)

  /** The pool with the goroutines around it. held are the pool's mutexes that are locked; leaver is the
      goroutine that owns p.lock between two steps. */
  datatype View<M> = View(
    pool: map<string, M>, count: map<string, nat>, held: set<M>, procs: map<nat, Proc<M>>, leaver: Option<nat>)

  // ---------- the steps, each atomic ----------

  /** CheckIn up to p.lock.Unlock(); `fresh` is the mutex that is made if there is none. */
  function Registered<M>(v: View<M>, identity: string, g: nat, spare: M): View<M> {
    var lock := if identity in v.pool then v.pool[identity] else spare;
    v.(pool := v.pool[identity := lock],
       count := v.count[identity := (if identity in v.count then v.count[identity] else 0) + 1],
       procs := v.procs[g := Waiting(identity, lock)])
  }

  /** The lock.Lock() of CheckIn, at the moment it succeeds. */
  function Acquired<M>(v: View<M>, g: nat): View<M>
    requires g in v.procs
  {
    var p := v.procs[g];
    v.(held := v.held + {p.lock}, procs := v.procs[g := Holding(p.identity, p.lock)])
  }

  /** CheckOut up to and with the unlocking of the pool's mutex; p.lock stays taken. */
  function Released<M>(v: View<M>, identity: string, g: nat): View<M>
    requires identity in v.pool && g in v.procs
  {
    v.(held := v.held - {v.pool[identity]}, procs := v.procs[g := Leaving(identity, v.procs[g].lock)],
       leaver := Some(g))
  }

  /** The rest of CheckOut. */
  function Forgotten<M>(v: View<M>, identity: string, g: nat): View<M>
    requires identity in v.pool && identity in v.count && v.count[identity] > 0
  {
    var w := v.(procs := v.procs - {g}, leaver := None);
    if v.count[identity] == 1 then
      w.(pool := v.pool - {identity}, count := v.count - {identity}, held := v.held - {v.pool[identity]})
    else w.(count := v.count[identity := v.count[identity] - 1])
  }

  // ---------- the invariant ----------

  /** The goroutines that have checked in under an identity and are not out yet. */
  function Users<M>(procs: map<nat, Proc<M>>, identity: string): set<nat> {
    set g | g in procs && procs[g].identity == identity
  }

  ghost predicate Counts<M>(v: View<M>, i: string) {
    && (i in v.pool <==> i in v.count)
    && (if i in v.count then v.count[i] == |Users(v.procs, i)| && v.count[i] > 0 else Users(v.procs, i) == {})
  }

  /** g refers to the mutex that is in the pool for its identity now. */
  ghost predicate Refers<M>(v: View<M>, g: nat)
    requires g in v.procs
  {
    && v.procs[g].identity in v.pool && v.procs[g].lock == v.pool[v.procs[g].identity]
    && (v.procs[g].Holding? ==> v.procs[g].lock in v.held)
    && (v.procs[g].Leaving? <==> v.leaver == Some(g))
  }

  ghost predicate Alone<M>(v: View<M>, g: nat, h: nat)
    requires g in v.procs && h in v.procs
  {
    v.procs[g].Holding? && v.procs[h].Holding? && v.procs[g].identity == v.procs[h].identity ==> g == h
  }

  ghost predicate Valid<M(!new)>(v: View<M>) {
    && (forall i :: Counts(v, i))
    && (forall i, j :: i in v.pool && j in v.pool && v.pool[i] == v.pool[j] ==> i == j)
    && (forall g :: g in v.procs ==> Refers(v, g))
    && (forall g, h :: g in v.procs && h in v.procs ==> Alone(v, g, h))
    && (forall m :: m in v.held ==> exists g :: g in v.procs && v.procs[g].Holding? && v.procs[g].lock == m)
    && (v.leaver.Some? ==> v.leaver.value in v.procs)
  }

  lemma {:induction false} UsersAfter<M>(procs: map<nat, Proc<M>>, g: nat, p: Proc<M>, i: string)
    ensures Users(procs[g := p], i) == if p.identity == i then Users(procs, i) + {g} else Users(procs, i) - {g}
    ensures Users(procs - {g}, i) == Users(procs, i) - {g}
    ensures g !in procs ==> g !in Users(procs, i)
  {
  }

  lemma {:induction false} RegisterKeeps<M(!new)>(v: View<M>, identity: string, g: nat, spare: M)
    requires Valid(v) && v.leaver == None && g !in v.procs && spare !in v.pool.Values
    ensures Valid(Registered(v, identity, g, spare))
  {
    var w := Registered(v, identity, g, spare);
    forall i
      ensures Counts(w, i)
    {
      assert Counts(v, i);
      UsersAfter(v.procs, g, w.procs[g], i);
    }
    forall h | h in w.procs
      ensures Refers(w, h)
    {
      if h != g {
        assert Refers(v, h);
      }
    }
    forall h, k | h in w.procs && k in w.procs
      ensures Alone(w, h, k)
    {
      assert h != g && k != g ==> Alone(v, h, k);
    }
    forall m | m in w.held
      ensures exists h :: h in w.procs && w.procs[h].Holding? && w.procs[h].lock == m
    {
      var h :| h in v.procs && v.procs[h].Holding? && v.procs[h].lock == m;
      assert w.procs[h] == v.procs[h];
    }
  }

  lemma {:induction false} AcquireKeeps<M(!new)>(v: View<M>, g: nat)
    requires Valid(v) && g in v.procs && v.procs[g].Waiting? && v.procs[g].lock !in v.held
    ensures Valid(Acquired(v, g))
  {
    var w := Acquired(v, g);
    forall i
      ensures Counts(w, i)
    {
      assert Counts(v, i);
      UsersAfter(v.procs, g, w.procs[g], i);
      assert Users(w.procs, i) == Users(v.procs, i);
    }
    assert Refers(v, g);
    forall h | h in w.procs
      ensures Refers(w, h)
    {
      assert Refers(v, h);
    }
    forall h, k | h in w.procs && k in w.procs
      ensures Alone(w, h, k)
    {
      assert Refers(v, h) && Refers(v, k) && Alone(v, h, k);
    }
    forall m | m in w.held
      ensures exists h :: h in w.procs && w.procs[h].Holding? && w.procs[h].lock == m
    {
      if m in v.held {
        var h :| h in v.procs && v.procs[h].Holding? && v.procs[h].lock == m;
        assert w.procs[h] == v.procs[h];
      } else {
        assert w.procs[g].Holding? && w.procs[g].lock == m;
      }
    }
  }

  lemma {:induction false} ReleaseKeeps<M(!new)>(v: View<M>, identity: string, g: nat)
    requires Valid(v) && v.leaver == None && g in v.procs && v.procs[g].Holding? && v.procs[g].identity == identity
    ensures identity in v.pool && v.pool[identity] in v.held && Valid(Released(v, identity, g))
  {
    assert Refers(v, g);
    var w := Released(v, identity, g);
    forall i
      ensures Counts(w, i)
    {
      assert Counts(v, i);
      UsersAfter(v.procs, g, w.procs[g], i);
      assert Users(w.procs, i) == Users(v.procs, i);
    }
    forall h | h in w.procs
      ensures Refers(w, h)
    {
      assert Refers(v, h) && Alone(v, g, h);
    }
    forall h, k | h in w.procs && k in w.procs
      ensures Alone(w, h, k)
    {
      assert Alone(v, h, k);
    }
    forall m | m in w.held
      ensures exists h :: h in w.procs && w.procs[h].Holding? && w.procs[h].lock == m
    {
      var h :| h in v.procs && v.procs[h].Holding? && v.procs[h].lock == m;
      assert w.procs[h] == v.procs[h];
    }
  }

  lemma {:induction false} ForgetKeeps<M(!new)>(v: View<M>, identity: string, g: nat)
    requires Valid(v) && v.leaver == Some(g) && g in v.procs && v.procs[g].identity == identity
    ensures identity in v.pool && identity in v.count && v.count[identity] > 0 && Valid(Forgotten(v, identity, g))
    ensures v.count[identity] == 1 ==> v.pool[identity] !in v.held
  {
    assert Refers(v, g) && Counts(v, identity);
    assert g in Users(v.procs, identity);
    if v.count[identity] == 1 {
      LastUser(v, identity, g);
    }
    var w := Forgotten(v, identity, g);
    forall i
      ensures Counts(w, i)
    {
      assert Counts(v, i);
      UsersAfter(v.procs, g, v.procs[g], i);
    }
    forall h | h in w.procs
      ensures Refers(w, h)
    {
      assert Refers(v, h);
      assert v.count[identity] == 1 ==> v.procs[h].identity != identity;
    }
    forall h, k | h in w.procs && k in w.procs
      ensures Alone(w, h, k)
    {
      assert Alone(v, h, k);
    }
    forall m | m in w.held
      ensures exists h :: h in w.procs && w.procs[h].Holding? && w.procs[h].lock == m
    {
      var h :| h in v.procs && v.procs[h].Holding? && v.procs[h].lock == m;
      assert w.procs[h] == v.procs[h];
    }
  }

  lemma {:induction false} LastUser<M(!new)>(v: View<M>, identity: string, g: nat)
    requires Valid(v) && g in v.procs && v.procs[g].identity == identity && v.procs[g].Leaving?
    requires identity in v.count && v.count[identity] == 1
    ensures forall h :: h in v.procs && v.procs[h].identity == identity ==> h == g
    ensures identity in v.pool && v.pool[identity] !in v.held
  {
    assert Counts(v, identity) && Refers(v, g);
    assert g in Users(v.procs, identity);
    assert |Users(v.procs, identity) - {g}| == 0;
    forall h | h in v.procs && v.procs[h].identity == identity
      ensures h == g
    {
      assert h in Users(v.procs, identity);
      assert h != g ==> h in Users(v.procs, identity) - {g};
    }
    assert v.pool[identity] == v.procs[g].lock && !v.procs[g].Holding?;
    assert forall h :: h in v.procs ==> Refers(v, h);
  }

  // ---------- every interleaving ----------

  datatype Step<M> = Register(identity: string, g: nat, spare: M) | Acquire(g: nat) | Release(g: nat) | Forget(g: nat)

  /** Only holders check out; a mutex is locked only while it is free; p.lock lets one in at a time. */
  predicate Enabled<M(==)>(v: View<M>, step: Step<M>) {
    match step
    case Register(identity, g, spare) => v.leaver == None && g !in v.procs && spare !in v.pool.Values
    case Acquire(g) => g in v.procs && v.procs[g].Waiting? && v.procs[g].lock !in v.held
    case Release(g) =>
      v.leaver == None && g in v.procs && v.procs[g].Holding? && v.procs[g].identity in v.pool
    case Forget(g) =>
      && v.leaver == Some(g) && g in v.procs && v.procs[g].identity in v.pool
      && v.procs[g].identity in v.count && v.count[v.procs[g].identity] > 0
  }

  function Next<M>(v: View<M>, step: Step<M>): View<M>
    requires Enabled(v, step)
  {
    match step
    case Register(identity, g, spare) => Registered(v, identity, g, spare)
    case Acquire(g) => Acquired(v, g)
    case Release(g) => Released(v, v.procs[g].identity, g)
    case Forget(g) => Forgotten(v, v.procs[g].identity, g)
  }

  lemma {:induction false} StepKeeps<M(!new)>(v: View<M>, step: Step<M>)
    requires Valid(v) && Enabled(v, step)
    ensures Valid(Next(v, step))
  {
    hide Valid, Registered, Acquired, Released, Forgotten;
    match step
    case Register(identity, g, spare) => RegisterKeeps(v, identity, g, spare);
    case Acquire(g) => AcquireKeeps(v, g);
    case Release(g) => ReleaseKeeps(v, v.procs[g].identity, g);
    case Forget(g) => ForgetKeeps(v, v.procs[g].identity, g);
  }

  ghost predicate Run<M(!new)>(views: seq<View<M>>, steps: seq<Step<M>>) {
    && |views| == |steps| + 1 && views[0] == View(map[], map[], {}, map[], None)
    && forall k :: 0 <= k < |steps| ==> Enabled(views[k], steps[k]) && views[k + 1] == Next(views[k], steps[k])
  }

  lemma {:induction false} RunValid<M(!new)>(views: seq<View<M>>, steps: seq<Step<M>>, k: nat)
    requires Run(views, steps) && k <= |steps|
    ensures Valid(views[k])
  {
    if k > 0 {
      RunValid(views, steps, k - 1);
      StepKeeps(views[k - 1], steps[k - 1]);
    }
  }

  /** At most one goroutine holds an identity. */
  lemma {:induction false} MutualExclusion<M(!new)>(views: seq<View<M>>, steps: seq<Step<M>>, k: nat, g: nat, h: nat)
    requires Run(views, steps) && k <= |steps|
    requires var v := views[k];
             g in v.procs && h in v.procs && v.procs[g].Holding? && v.procs[h].Holding? &&
             v.procs[g].identity == v.procs[h].identity
    ensures g == h
  {
    RunValid(views, steps, k);
    assert Alone(views[k], g, h);
  }

  /** Nobody waits for a mutex that no one will unlock: all who use an identity share the mutex that is in
      the pool now, and if none of them holds it, it is free. */
  lemma {:induction false} WaitersCanGo<M(!new)>(views: seq<View<M>>, steps: seq<Step<M>>, k: nat, g: nat)
    requires Run(views, steps) && k <= |steps|
    requires var v := views[k];
             g in v.procs && v.procs[g].Waiting? &&
             forall h :: h in v.procs && v.procs[h].Holding? ==> v.procs[h].identity != v.procs[g].identity
    ensures Enabled(views[k], Acquire(g))
    ensures views[k].procs[g].identity in views[k].pool
    ensures views[k].procs[g].lock == views[k].pool[views[k].procs[g].identity]
  {
    RunValid(views, steps, k);
    var v := views[k];
    assert Refers(v, g);
    forall h | h in v.procs && v.procs[h].Holding?
      ensures v.procs[h].lock != v.procs[g].lock
    {
      assert Refers(v, h);
    }
  }

  /** count is the number of waiters and holders, and the pool keeps a mutex for exactly the identities that
      have any. */
  lemma {:induction false} CountIsUsers<M(!new)>(views: seq<View<M>>, steps: seq<Step<M>>, k: nat, i: string)
    requires Run(views, steps) && k <= |steps|
    ensures
      var v := views[k];
      var users := set g | g in v.procs && v.procs[g].identity == i;
      && (i in v.pool <==> users != {}) && (i in v.count <==> users != {})
      && (users != {} ==> v.count[i] == |users|)
  {
    RunValid(views, steps, k);
    assert Counts(views[k], i);
    assert (set g | g in views[k].procs && views[k].procs[g].identity == i) == Users(views[k].procs, i);
  }

  /** Whoever wants to check in can register as soon as p.lock is free, and then waits for the mutex that all the
      other users of the identity refer to. */
  lemma {:induction false} CheckInCanGo<M(!new)>(views: seq<View<M>>, steps: seq<Step<M>>, k: nat, i: string, g: nat,
      spare: M)
    requires Run(views, steps) && k <= |steps|
    requires views[k].leaver == None && g !in views[k].procs && spare !in views[k].pool.Values
    ensures Enabled(views[k], Register(i, g, spare))
    ensures
      var p := Next(views[k], Register(i, g, spare)).procs;
      g in p && p[g].Waiting? && p[g].identity == i &&
      forall h :: h in p && p[h].identity == i ==> p[h].lock == p[g].lock
  {
    RunValid(views, steps, k);
    var v := views[k];
    forall h | h in v.procs && v.procs[h].identity == i
      ensures i in v.pool && v.procs[h].lock == v.pool[i]
    {
      assert Refers(v, h);
    }
  }

  /** Whoever is in CheckOut can finish: the identity's entries are there and its count is positive. */
  lemma {:induction false} CheckOutCanGo<M(!new)>(views: seq<View<M>>, steps: seq<Step<M>>, k: nat, g: nat)
    requires Run(views, steps) && k <= |steps| && g in views[k].procs
    requires views[k].procs[g].Leaving? || (views[k].procs[g].Holding? && views[k].leaver == None)
    ensures Enabled(views[k], if views[k].procs[g].Leaving? then Forget(g) else Release(g))
  {
    RunValid(views, steps, k);
    var v := views[k];
    assert Refers(v, g) && Counts(v, v.procs[g].identity);
  }

  // ---------- the code ----------

  /** sync.Mutex. */
  class Mutex {
    var held: bool

    constructor ()
      ensures !held
    {
      held := false;
    }
  }

  /** Each method is one atomic step of some goroutine. */
  class Pool {
    var pool: map<string, Mutex>
    var count: map<string, nat>
    ghost var procs: map<nat, Proc<Mutex>>
    ghost var leaver: Option<nat>

    ghost function Look(): View<Mutex>
      reads this, pool.Values
    {
      View(pool, count, (set m | m in pool.Values && m.held), procs, leaver)
    }

    constructor ()
      ensures Look() == View(map[], map[], {}, map[], None)
    {
      pool, count := map[], map[];
      procs, leaver := map[], None;
    }

    /** The first half of CheckIn. */
    method Register(identity: string, ghost g: nat) returns (lock: Mutex)
      requires pool.Keys == count.Keys && leaver == None && g !in procs
      modifies this
      ensures identity !in old(pool) ==> fresh(lock)
      ensures Look() == Registered(old(Look()), identity, g, lock) && lock == pool[identity]
    {
      ghost var before := Look();
      if identity in pool {
        lock := pool[identity];
      } else {
        lock := new Mutex();
        pool := pool[identity := lock];
        AddOne(before.pool, identity, lock);
      }
      count := count[identity := (if identity in count then count[identity] else 0) + 1];
      procs := procs[g := Waiting(identity, lock)];
      assert Look().held == before.held;
      assert pool == before.pool[identity := lock];
    }

    /** lock.Lock() at the moment it goes through. */
    method Acquire(lock: Mutex, ghost g: nat)
      requires Enabled(Look(), Step.Acquire(g)) && procs[g].lock == lock && lock in pool.Values
      modifies this`procs, lock
      ensures Look() == Acquired(old(Look()), g)
    {
      lock.held := true;
      procs := procs[g := Holding(procs[g].identity, lock)];
    }

    /** The first half of CheckOut. */
    method Release(identity: string, ghost g: nat)
      requires Enabled(Look(), Step.Release(g)) && procs[g].identity == identity
      modifies this`procs, this`leaver, pool[identity]
      ensures Look() == Released(old(Look()), identity, g)
    {
      pool[identity].held := false;
      procs, leaver := procs[g := Leaving(identity, procs[g].lock)], Some(g);
    }

    /** The second half of CheckOut; other identities' mutexes are other objects. */
    method Forget(identity: string, ghost g: nat)
      requires Enabled(Look(), Step.Forget(g)) && procs[g].identity == identity
      requires forall i :: i in pool && pool[i] == pool[identity] ==> i == identity
      modifies this
      ensures Look() == Forgotten(old(Look()), identity, g)
    {
      ghost var before := Look();
      if count[identity] == 1 {
        ghost var lock := pool[identity];
        pool := pool - {identity};
        count := count - {identity};
        assert pool.Values == before.pool.Values - {lock} by { DropOne(before.pool, identity); }
      } else {
        count := count[identity := count[identity] - 1];
      }
      procs, leaver := procs - {g}, None;
    }
  }

  lemma {:induction false} AddOne<M>(pool: map<string, M>, i: string, m: M)
    requires i !in pool
    ensures pool[i := m].Values == pool.Values + {m}
  {
    forall x | x in pool.Values + {m}
      ensures x in pool[i := m].Values
    {
      if x in pool.Values {
        var j :| j in pool && pool[j] == x;
        assert pool[i := m][j] == x;
      } else {
        assert pool[i := m][i] == x;
      }
    }
  }

  lemma {:induction false} DropOne<M>(pool: map<string, M>, i: string)
    requires i in pool && forall j :: j in pool && pool[j] == pool[i] ==> j == i
    ensures (pool - {i}).Values == pool.Values - {pool[i]}
  {
    forall m | m in pool.Values - {pool[i]}
      ensures m in (pool - {i}).Values
    {
      var j :| j in pool && pool[j] == m;
      assert j in pool - {i};
    }
    forall m | m in (pool - {i}).Values
      ensures m in pool.Values - {pool[i]}
    {
      var j :| j in pool - {i} && (pool - {i})[j] == m;
    }
  }
}
