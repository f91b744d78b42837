/** The etcd compactor (registry/generic/compact.go): any number of processes race by compare-and-swap
    on the version of one key. The transaction and the Compact call are separate steps. */
module Compaction {

  // ---------- one process ----------

  /** compactTime and rev of the loop. */
  datatype Local = Local(time: nat, rev: nat)

  /** What comes back from the transaction: an error, the header revision after the put, or the key's
      version and the header revision. */
  datatype Reply = Failed | Swapped(header: nat) | Behind(version: nat, header: nat)

  /** How compact goes on: it returns, or calls Compact first. */
  datatype After = Return(local: Local) | CallCompact(target: nat, local: Local)

  function AfterTxn(l: Local, reply: Reply): After {
    match reply
    case Failed => Return(l)
    case Behind(version, header) => Return(Local(version, header))
    case Swapped(header) =>
      if l.rev == 0 then Return(Local(l.time + 1, header)) else CallCompact(l.rev, Local(l.time + 1, header))
  }

  /** The variables of the compactor goroutine and the part of compact that updates them. */
  class Process {
    var compactTime: nat
    var rev: nat

    constructor ()
      ensures compactTime == 0 && rev == 0
    {
      compactTime, rev := 0, 0;
    }

    /** From the answer of the transaction on; a target is what client.Compact is called with. */
    method Conclude(reply: Reply) returns (call: bool, target: nat)
      modifies this
      ensures
        var after := AfterTxn(Local(old(compactTime), old(rev)), reply);
        && Local(compactTime, rev) == after.local
        && call == after.CallCompact? && (call ==> target == after.target)
    {
      call, target := false, rev;
      if reply.Failed? {
        return;
      }
      var curRev := reply.header;
      if reply.Behind? {
        compactTime, rev := reply.version, curRev;
        return;
      }
      var curTime := compactTime + 1;
      if rev == 0 {
        compactTime, rev := curTime, curRev;
        return;
      }
      call := true;
      compactTime, rev := curTime, curRev;
    }
  }

  // ---------- the store ----------

  /** A successful swap: when, the revision that was put as the value, and the global revision after it. */
  datatype Swap = Swap(at: nat, value: nat, revision: nat)

  /** born[r] is the time at which revision r came to be; swaps[n] is the swap to version n + 1. */
  datatype Store = Store(version: nat, revision: nat, compacted: nat, born: seq<nat>, swaps: seq<Swap>)

  function Grow(st: Store, clock: nat): Store {
    st.(revision := st.revision + 1, born := st.born + [clock])
  }

  function ApplyTxn(st: Store, clock: nat, l: Local): Store {
    if st.version != l.time then st
    else Grow(st, clock).(version := st.version + 1, swaps := st.swaps + [Swap(clock, l.rev, st.revision + 1)])
  }

  function ReplyOf(st: Store, l: Local): Reply {
    if st.version != l.time then Behind(st.version, st.revision) else Swapped(st.revision + 1)
  }

  /** etcd refuses a revision that is already compacted or still to come. */
  function ApplyCompact(st: Store, target: nat): Store {
    if st.compacted < target <= st.revision then st.(compacted := target) else st
  }

  // ---------- the system ----------

  /** A process between two rounds, or between its transaction and its Compact call; `seen` is the time
      at which its rev was read. Late and LateCompact are requests that outlive the call that sent them:
      their sender was told of a failure and went on, and the store applies them at any later time. */
  datatype Proc =
    | Sleeping(local: Local, seen: nat, wake: nat)
    | Calling(local: Local, seen: nat, target: nat)
    | Late(local: Local, seen: nat, wake: nat)
    | LateCompact(local: Local, seen: nat, target: nat)

  datatype State = State(store: Store, clock: nat, procs: map<nat, Proc>)

  /** A request is lost on the way, is applied but its answer is lost, or is answered. */
  datatype Fate = Lost | Unanswered | Answered

  datatype Step =
    | Tick
    | Write
    | Join(id: nat, wake: nat)
    | Crash(id: nat)
    | Txn(id: nat, fate: Fate, wake: nat)
    | Compact(id: nat, fate: Fate, wake: nat)
    | Delay(id: nat, late: nat, wake: nat)
    | Arrive(late: nat)

  function Settle(after: After, seen: nat, wake: nat): Proc {
    match after
    case Return(l) => Sleeping(l, seen, wake)
    case CallCompact(target, l) => Calling(l, seen, target)
  }

  predicate Enabled(s: State, step: Step, interval: nat) {
    match step
    case Tick => true
    case Write => true
    case Join(id, wake) => id !in s.procs && wake >= s.clock + interval
    case Crash(id) => id in s.procs
    case Txn(id, fate, wake) =>
      id in s.procs && s.procs[id].Sleeping? && s.procs[id].wake <= s.clock && wake >= s.clock + interval
    case Compact(id, fate, wake) =>
      id in s.procs && s.procs[id].Calling? && wake >= s.clock + interval
    case Delay(id, late, wake) =>
      && id in s.procs && late !in s.procs && wake >= s.clock + interval
      && ((s.procs[id].Sleeping? && s.procs[id].wake <= s.clock) || s.procs[id].Calling?)
    case Arrive(late) => late in s.procs && (s.procs[late].Late? || s.procs[late].LateCompact?)
  }

  function Next(s: State, step: Step, interval: nat): State
    requires Enabled(s, step, interval)
  {
    match step
    case Tick => s.(clock := s.clock + 1)
    case Write => s.(store := Grow(s.store, s.clock))
    case Join(id, wake) => s.(procs := s.procs[id := Sleeping(Local(0, 0), s.clock, wake)])
    case Crash(id) => s.(procs := s.procs - {id})
    case Txn(id, fate, wake) =>
      var p := s.procs[id];
      var reply := if fate == Answered then ReplyOf(s.store, p.local) else Failed;
      s.(store := if fate == Lost then s.store else ApplyTxn(s.store, s.clock, p.local),
         procs := s.procs[id := Settle(AfterTxn(p.local, reply), if fate == Answered then s.clock else p.seen, wake)])
    case Compact(id, fate, wake) =>
      var p := s.procs[id];
      s.(store := if fate == Lost then s.store else ApplyCompact(s.store, p.target),
         procs := s.procs[id := Sleeping(p.local, p.seen, wake)])
    case Delay(id, late, wake) =>
      var p := s.procs[id];
      var request :=
        if p.Sleeping? then Late(p.local, p.seen, p.wake) else LateCompact(p.local, p.seen, p.target);
      s.(procs := s.procs[id := Sleeping(p.local, p.seen, wake)][late := request])
    case Arrive(late) =>
      var p := s.procs[late];
      s.(store := if p.Late? then ApplyTxn(s.store, s.clock, p.local) else ApplyCompact(s.store, p.target),
         procs := s.procs - {late})
  }

  /** No compactor has run yet; the store may already hold data. */
  predicate Init(s: State) {
    && s.clock == 0 && s.procs == map[] && s.store.version == 0 && s.store.swaps == [] && s.store.compacted == 0
    && s.store.revision >= 1 && |s.store.born| == s.store.revision + 1
    && forall r :: 0 <= r < |s.store.born| ==> s.store.born[r] == 0
  }

  // ---------- the invariant ----------

  /** r was the global revision at time t. */
  predicate WasCurrent(st: Store, r: nat, t: nat) {
    && r <= st.revision < |st.born|
    && st.born[r] <= t && (r < st.revision ==> t <= st.born[r + 1])
  }

  predicate History(st: Store, clock: nat) {
    && |st.born| == st.revision + 1 && st.revision >= 1
    && (forall r :: 0 <= r < |st.born| ==> st.born[r] <= clock)
    && forall q, r :: 0 <= q <= r < |st.born| ==> st.born[q] <= st.born[r]
  }

  /** The value of a swap was the global revision a full interval before the swap. */
  ghost predicate Aged(st: Store, w: Swap, interval: nat) {
    exists t: nat :: WasCurrent(st, w.value, t) && t + interval <= w.at
  }

  ghost predicate SwapOk(st: Store, n: nat, clock: nat, interval: nat)
    requires n < |st.swaps|
  {
    var w := st.swaps[n];
    && w.at <= clock && w.value < w.revision <= st.revision
    && (n == 0 ==> w.value == 0)
    && (n > 0 ==>
          && st.swaps[n - 1].revision <= w.value && st.swaps[n - 1].at + interval <= w.at
          && w.value > 0 && Aged(st, w, interval))
  }

  /** A Compact call that is about to be made, or a request for one that is under way. */
  predicate Compacting(p: Proc) {
    p.Calling? || p.LateCompact?
  }

  ghost predicate ProcOk(st: Store, p: Proc, clock: nat, interval: nat) {
    && p.local.time <= st.version == |st.swaps| && p.seen <= clock
    && (p.local.time == 0 <==> p.local.rev == 0)
    && (p.local.time > 0 ==>
          && WasCurrent(st, p.local.rev, p.seen)
          && st.swaps[p.local.time - 1].revision <= p.local.rev && st.swaps[p.local.time - 1].at <= p.seen)
    && (p.Sleeping? || p.Late? ==> p.seen + interval <= p.wake)
    && (p.Late? ==> p.wake <= clock)
    && (Compacting(p) ==> p.local.time > 1 && p.target == st.swaps[p.local.time - 1].value)
  }

  ghost predicate Valid(s: State, interval: nat) {
    && History(s.store, s.clock)
    && s.store.version == |s.store.swaps|
    && (forall n :: 0 <= n < |s.store.swaps| ==> SwapOk(s.store, n, s.clock, interval))
    && (forall id :: id in s.procs ==> ProcOk(s.store, s.procs[id], s.clock, interval))
    && (forall i, j :: i in s.procs && j in s.procs && i != j && Compacting(s.procs[i]) && Compacting(s.procs[j]) ==>
          s.procs[i].local.time != s.procs[j].local.time)
    && (s.store.compacted != 0 ==>
          exists n :: 0 < n < |s.store.swaps| && s.store.swaps[n].value == s.store.compacted)
  }

  // ---------- every step keeps it ----------

  /** `now` is `was` with more history: what held of old revisions and swaps still holds. */
  ghost predicate Extends(was: Store, now: Store, clock: nat) {
    && was.revision <= now.revision && was.born <= now.born && was.swaps <= now.swaps
    && forall r :: |was.born| <= r < |now.born| ==> now.born[r] >= clock
  }

  lemma {:induction false} WasCurrentKept(was: Store, now: Store, clock: nat, r: nat, t: nat)
    requires History(was, clock) && |now.born| == now.revision + 1 && Extends(was, now, clock)
    requires WasCurrent(was, r, t) && t <= clock
    ensures WasCurrent(now, r, t)
  {
  }

  lemma {:induction false} SwapKept(was: Store, now: Store, clock: nat, later: nat, n: nat, interval: nat)
    requires History(was, clock) && |now.born| == now.revision + 1 && Extends(was, now, clock)
    requires n < |was.swaps| && SwapOk(was, n, clock, interval) && clock <= later
    ensures SwapOk(now, n, later, interval)
  {
    var w := was.swaps[n];
    if n > 0 {
      var t: nat :| WasCurrent(was, w.value, t) && t + interval <= w.at;
      WasCurrentKept(was, now, clock, w.value, t);
    }
  }

  lemma {:induction false} ProcKept(was: Store, now: Store, clock: nat, later: nat, p: Proc, interval: nat)
    requires History(was, clock) && |now.born| == now.revision + 1 && Extends(was, now, clock)
    requires ProcOk(was, p, clock, interval) && clock <= later && now.version == |now.swaps|
    ensures ProcOk(now, p, later, interval)
  {
    if p.local.time > 0 {
      WasCurrentKept(was, now, clock, p.local.rev, p.seen);
    }
  }

  /** All that a step leaves alone stays in order. */
  lemma {:induction false} OthersKept(s: State, now: Store, later: nat, interval: nat)
    requires Valid(s, interval) && History(now, later) && s.clock <= later
    requires now.version == |now.swaps| && Extends(s.store, now, s.clock)
    ensures forall n :: 0 <= n < |s.store.swaps| ==> SwapOk(now, n, later, interval)
    ensures forall id :: id in s.procs ==> ProcOk(now, s.procs[id], later, interval)
  {
    forall n | 0 <= n < |s.store.swaps|
      ensures SwapOk(now, n, later, interval)
    {
      SwapKept(s.store, now, s.clock, later, n, interval);
    }
    forall id | id in s.procs
      ensures ProcOk(now, s.procs[id], later, interval)
    {
      ProcKept(s.store, now, s.clock, later, s.procs[id], interval);
    }
  }

  /** A swap: its value was read a full interval before, and after the previous swap. */
  lemma {:induction false} SwapStep(s: State, id: nat, interval: nat)
    requires Valid(s, interval) && id in s.procs && (s.procs[id].Sleeping? || s.procs[id].Late?)
    requires s.procs[id].wake <= s.clock && s.procs[id].local.time == s.store.version
    ensures
      var now := ApplyTxn(s.store, s.clock, s.procs[id].local);
      && History(now, s.clock) && Extends(s.store, now, s.clock) && now.version == |now.swaps|
      && SwapOk(now, s.store.version, s.clock, interval)
  {
    var p := s.procs[id];
    var now := ApplyTxn(s.store, s.clock, p.local);
    assert ProcOk(s.store, p, s.clock, interval);
    if s.store.version > 0 {
      WasCurrentKept(s.store, now, s.clock, p.local.rev, p.seen);
      assert SwapOk(s.store, s.store.version - 1, s.clock, interval);
      assert Aged(now, now.swaps[s.store.version], interval);
    }
  }

  lemma {:induction false} TxnStore(s: State, id: nat, fate: Fate, wake: nat, interval: nat)
    requires Valid(s, interval) && Enabled(s, Txn(id, fate, wake), interval)
    ensures
      var now := Next(s, Txn(id, fate, wake), interval).store;
      && History(now, s.clock) && Extends(s.store, now, s.clock) && now.version == |now.swaps|
      && now.compacted == s.store.compacted
      && forall n :: 0 <= n < |now.swaps| ==> SwapOk(now, n, s.clock, interval)
  {
    hide SwapOk, ProcOk;
    if fate != Lost && s.procs[id].local.time == s.store.version {
      SwapStep(s, id, interval);
    }
    OthersKept(s, Next(s, Txn(id, fate, wake), interval).store, s.clock, interval);
  }

  /** A swap that is answered leaves its sender with the new version and the revision it put. */
  lemma {:induction false} SwappedProc(st: Store, p: Proc, now: Store, clock: nat, wake: nat, interval: nat)
    requires ProcOk(st, p, clock, interval) && p.local.time == st.version && now == ApplyTxn(st, clock, p.local)
    requires History(now, clock) && wake >= clock + interval
    ensures
      var q := Settle(AfterTxn(p.local, Swapped(st.revision + 1)), clock, wake);
      && ProcOk(now, q, clock, interval)
      && (Compacting(q) ==> q.local.time == st.version + 1)
  {
    assert |now.swaps| == now.version == st.version + 1 && now.swaps[st.version].revision == now.revision;
  }

  /** A process that fell behind takes over the version and the global revision. */
  lemma {:induction false} BehindProc(st: Store, p: Proc, clock: nat, wake: nat, interval: nat)
    requires ProcOk(st, p, clock, interval) && p.local.time != st.version && wake >= clock + interval
    requires History(st, clock) && SwapOk(st, st.version - 1, clock, interval)
    ensures
      var q := Settle(AfterTxn(p.local, Behind(st.version, st.revision)), clock, wake);
      ProcOk(st, q, clock, interval) && !Compacting(q)
  {
    hide Aged;
  }

  lemma {:induction false} VersionBehind(st: Store, p: Proc, clock: nat, interval: nat)
    requires ProcOk(st, p, clock, interval) && p.local.time != st.version
    ensures p.local.time < st.version == |st.swaps|
  {
  }

  /** A process that is told of a failure goes back to sleep with what it knew. */
  lemma {:induction false} SleepsOn(was: Store, now: Store, p: Proc, clock: nat, wake: nat, interval: nat)
    requires History(was, clock) && |now.born| == now.revision + 1 && Extends(was, now, clock)
    requires ProcOk(was, p, clock, interval) && now.version == |now.swaps| && wake >= clock + interval
    ensures
      var q := Settle(AfterTxn(p.local, Failed), p.seen, wake);
      ProcOk(now, q, clock, interval) && !Compacting(q)
  {
    ProcKept(was, now, clock, clock, p, interval);
  }

  lemma {:induction false} TxnProc(s: State, id: nat, fate: Fate, wake: nat, interval: nat)
    requires Valid(s, interval) && Enabled(s, Txn(id, fate, wake), interval)
    ensures
      var after := Next(s, Txn(id, fate, wake), interval);
      && ProcOk(after.store, after.procs[id], s.clock, interval)
      && (Compacting(after.procs[id]) ==> after.procs[id].local.time == s.store.version + 1)
  {
    hide SwapOk, WasCurrent, ProcOk, AfterTxn, Extends;
    var p := s.procs[id];
    var now := Next(s, Txn(id, fate, wake), interval).store;
    TxnStore(s, id, fate, wake, interval);
    if fate != Answered {
      SleepsOn(s.store, now, p, s.clock, wake, interval);
    } else if p.local.time == s.store.version {
      SwappedProc(s.store, p, now, s.clock, wake, interval);
    } else {
      assert ProcOk(s.store, p, s.clock, interval);
      VersionBehind(s.store, p, s.clock, interval);
      BehindProc(s.store, p, s.clock, wake, interval);
    }
  }

  lemma {:induction false} TxnKeeps(s: State, id: nat, fate: Fate, wake: nat, interval: nat)
    requires Valid(s, interval) && Enabled(s, Txn(id, fate, wake), interval)
    ensures Valid(Next(s, Txn(id, fate, wake), interval), interval)
  {
    hide SwapOk, ProcOk, History, ApplyTxn, ReplyOf, AfterTxn, Settle, Compacting;
    var after := Next(s, Txn(id, fate, wake), interval);
    TxnStore(s, id, fate, wake, interval);
    OthersKept(s, after.store, s.clock, interval);
    TxnProc(s, id, fate, wake, interval);
    NoneAhead(s, interval);
    assert after.procs == s.procs[id := after.procs[id]];
    CompactedKept(s.store, after.store);
  }

  lemma {:induction false} NoneAhead(s: State, interval: nat)
    requires Valid(s, interval)
    ensures forall i :: i in s.procs ==> s.procs[i].local.time <= s.store.version
  {
    hide SwapOk, History;
    forall i | i in s.procs
      ensures s.procs[i].local.time <= s.store.version
    {
      assert ProcOk(s.store, s.procs[i], s.clock, interval);
    }
  }

  /** What has been compacted stays the value of a swap. */
  lemma {:induction false} CompactedKept(was: Store, now: Store)
    requires was.swaps <= now.swaps && now.compacted == was.compacted
    requires was.compacted != 0 ==> exists n :: 0 < n < |was.swaps| && was.swaps[n].value == was.compacted
    ensures now.compacted != 0 ==> exists n :: 0 < n < |now.swaps| && now.swaps[n].value == now.compacted
  {
    if was.compacted != 0 {
      var n :| 0 < n < |was.swaps| && was.swaps[n].value == was.compacted;
      assert now.swaps[n].value == now.compacted;
    }
  }

  lemma {:induction false} CompactProc(s: State, id: nat, fate: Fate, wake: nat, interval: nat)
    requires Valid(s, interval) && Enabled(s, Compact(id, fate, wake), interval)
    ensures
      var after := Next(s, Compact(id, fate, wake), interval);
      && ProcOk(after.store, after.procs[id], s.clock, interval)
      && 0 < s.procs[id].local.time - 1 < |s.store.swaps|
      && s.store.swaps[s.procs[id].local.time - 1].value == s.procs[id].target
  {
    hide SwapOk, Aged;
    assert ProcOk(s.store, s.procs[id], s.clock, interval);
    ProcKept(s.store, Next(s, Compact(id, fate, wake), interval).store, s.clock, s.clock, s.procs[id], interval);
  }

  lemma {:induction false} CompactKeeps(s: State, id: nat, fate: Fate, wake: nat, interval: nat)
    requires Valid(s, interval) && Enabled(s, Compact(id, fate, wake), interval)
    ensures Valid(Next(s, Compact(id, fate, wake), interval), interval)
  {
    hide SwapOk, ProcOk;
    OthersKept(s, Next(s, Compact(id, fate, wake), interval).store, s.clock, interval);
    CompactProc(s, id, fate, wake, interval);
  }

  /** The sender sleeps on with what it knew, and its request stays under way. */
  lemma {:induction false} DelayKeeps(s: State, id: nat, late: nat, wake: nat, interval: nat)
    requires Valid(s, interval) && Enabled(s, Delay(id, late, wake), interval)
    ensures Valid(Next(s, Delay(id, late, wake), interval), interval)
  {
    var after := Next(s, Delay(id, late, wake), interval);
    assert ProcOk(s.store, s.procs[id], s.clock, interval);
    assert ProcOk(s.store, after.procs[id], s.clock, interval) && ProcOk(s.store, after.procs[late], s.clock, interval);
    hide SwapOk, ProcOk, History;
  }

  lemma {:induction false} LateTarget(s: State, late: nat, interval: nat)
    requires Valid(s, interval) && late in s.procs && s.procs[late].LateCompact?
    ensures exists n :: 0 < n < |s.store.swaps| && s.store.swaps[n].value == s.procs[late].target
  {
    hide SwapOk, History, Aged;
    assert ProcOk(s.store, s.procs[late], s.clock, interval);
    var n := s.procs[late].local.time - 1;
    assert 0 < n < |s.store.swaps| && s.store.swaps[n].value == s.procs[late].target;
  }

  lemma {:induction false} ArriveStore(s: State, late: nat, interval: nat)
    requires Valid(s, interval) && Enabled(s, Arrive(late), interval)
    ensures
      var now := Next(s, Arrive(late), interval).store;
      && History(now, s.clock) && Extends(s.store, now, s.clock) && now.version == |now.swaps|
      && (forall n :: 0 <= n < |now.swaps| ==> SwapOk(now, n, s.clock, interval))
      && (now.compacted != 0 ==> exists n :: 0 < n < |now.swaps| && now.swaps[n].value == now.compacted)
  {
    var p := s.procs[late];
    var now := Next(s, Arrive(late), interval).store;
    hide SwapOk, WasCurrent;
    if p.LateCompact? {
      LateTarget(s, late, interval);
      hide ProcOk;
      OthersKept(s, now, s.clock, interval);
    } else {
      assert p.wake <= s.clock by { assert ProcOk(s.store, p, s.clock, interval); }
      hide ProcOk;
      if p.local.time == s.store.version {
        SwapStep(s, late, interval);
      }
      hide History;
      OthersKept(s, now, s.clock, interval);
      CompactedKept(s.store, now);
    }
  }

  /** A late transaction still carries an aged rev, and it fails its comparison once the version has moved. */
  lemma {:induction false} ArriveKeeps(s: State, late: nat, interval: nat)
    requires Valid(s, interval) && Enabled(s, Arrive(late), interval)
    ensures Valid(Next(s, Arrive(late), interval), interval)
  {
    hide SwapOk, ProcOk, History, Extends, ApplyTxn, ApplyCompact;
    ArriveStore(s, late, interval);
    OthersKept(s, Next(s, Arrive(late), interval).store, s.clock, interval);
  }

  lemma {:induction false} WorldKeeps(s: State, step: Step, interval: nat)
    requires Valid(s, interval) && Enabled(s, step, interval)
    requires !step.Txn? && !step.Compact? && !step.Delay? && !step.Arrive?
    ensures Valid(Next(s, step, interval), interval)
  {
    var after := Next(s, step, interval);
    OthersKept(s, after.store, after.clock, interval);
  }

  lemma {:induction false} StepKeeps(s: State, step: Step, interval: nat)
    requires Valid(s, interval) && Enabled(s, step, interval)
    ensures Valid(Next(s, step, interval), interval)
  {
    match step
    case Txn(id, fate, wake) => TxnKeeps(s, id, fate, wake, interval);
    case Compact(id, fate, wake) => CompactKeeps(s, id, fate, wake, interval);
    case Delay(id, late, wake) => DelayKeeps(s, id, late, wake, interval);
    case Arrive(late) => ArriveKeeps(s, late, interval);
    case Tick => WorldKeeps(s, step, interval);
    case Write => WorldKeeps(s, step, interval);
    case Join(id, wake) => WorldKeeps(s, step, interval);
    case Crash(id) => WorldKeeps(s, step, interval);
  }

  // ---------- whole runs ----------

  ghost predicate Run(states: seq<State>, steps: seq<Step>, interval: nat) {
    && |states| == |steps| + 1 && Init(states[0])
    && forall k :: 0 <= k < |steps| ==>
         Enabled(states[k], steps[k], interval) && states[k + 1] == Next(states[k], steps[k], interval)
  }

  lemma {:induction false} RunValid(states: seq<State>, steps: seq<Step>, interval: nat, k: nat)
    requires Run(states, steps, interval) && k <= |steps|
    ensures Valid(states[k], interval)
  {
    if k > 0 {
      RunValid(states, steps, interval, k - 1);
      StepKeeps(states[k - 1], steps[k - 1], interval);
    }
  }

  /** Whatever is about to be compacted was the global revision at least one interval ago, and is not a
      revision of the future. */
  lemma {:induction false} TargetsAreOld(s: State, id: nat, interval: nat) returns (t: nat)
    requires Valid(s, interval) && id in s.procs && Compacting(s.procs[id])
    ensures WasCurrent(s.store, s.procs[id].target, t) && t + interval <= s.clock
    ensures 0 < s.procs[id].target < s.store.revision
  {
    var p := s.procs[id];
    assert ProcOk(s.store, p, s.clock, interval);
    var n := p.local.time - 1;
    assert SwapOk(s.store, n, s.clock, interval);
    t :| WasCurrent(s.store, s.store.swaps[n].value, t) && t + interval <= s.store.swaps[n].at;
  }

  /** A revision that is gone had been superseded for at least one interval: nothing that was current
      during the last interval is ever compacted. */
  lemma {:induction false} LastIntervalKept(s: State, interval: nat, r: nat)
    requires Valid(s, interval) && r < s.store.compacted
    ensures r + 1 < |s.store.born| && s.store.born[r + 1] + interval <= s.clock
  {
    var n :| 0 < n < |s.store.swaps| && s.store.swaps[n].value == s.store.compacted;
    assert SwapOk(s.store, n, s.clock, interval);
    var t: nat :| WasCurrent(s.store, s.store.compacted, t) && t + interval <= s.store.swaps[n].at;
    assert s.store.born[r + 1] <= s.store.born[s.store.compacted] <= t;
  }

  /** Targets strictly increase with the version of the key, and swaps are an interval apart. */
  lemma {:induction false} SwapsApart(s: State, interval: nat, i: nat, j: nat)
    requires Valid(s, interval) && i < j < |s.store.swaps|
    ensures s.store.swaps[i].value < s.store.swaps[j].value
    ensures s.store.swaps[i].at + interval <= s.store.swaps[j].at
    decreases j
  {
    assert SwapOk(s.store, j, s.clock, interval) && SwapOk(s.store, j - 1, s.clock, interval);
    if i < j - 1 {
      SwapsApart(s, interval, i, j - 1);
    }
  }

  /** A transaction that fails its comparison always finds the key, so reading its version cannot fail. */
  lemma {:induction false} ElseFindsKey(s: State, id: nat, interval: nat)
    requires Valid(s, interval) && id in s.procs && s.procs[id].Sleeping?
    requires s.procs[id].local.time != s.store.version
    ensures s.store.version > 0 && s.procs[id].local.time < s.store.version
  {
    assert ProcOk(s.store, s.procs[id], s.clock, interval);
  }

  /** No target is asked for by two processes, late requests included. */
  lemma {:induction false} OneCaller(s: State, i: nat, j: nat, interval: nat)
    requires Valid(s, interval) && i in s.procs && j in s.procs && i != j
    requires Compacting(s.procs[i]) && Compacting(s.procs[j])
    ensures s.procs[i].target != s.procs[j].target
  {
    var m, n := s.procs[i].local.time - 1, s.procs[j].local.time - 1;
    assert ProcOk(s.store, s.procs[i], s.clock, interval) && ProcOk(s.store, s.procs[j], s.clock, interval);
    if m < n {
      SwapsApart(s, interval, m, n);
    } else {
      SwapsApart(s, interval, n, m);
    }
  }

  /** In every run, every Compact request names a revision that was the global one a full interval before,
      when it is sent and when it arrives late. */
  lemma {:induction false} RunCompactsOld(states: seq<State>, steps: seq<Step>, interval: nat, k: nat) returns (t: nat)
    requires Run(states, steps, interval) && k < |steps|
    requires steps[k].Compact? || (steps[k].Arrive? && states[k].procs[steps[k].late].LateCompact?)
    ensures
      var s := states[k];
      var p := s.procs[if steps[k].Compact? then steps[k].id else steps[k].late];
      WasCurrent(s.store, p.target, t) && t + interval <= s.clock
  {
    RunValid(states, steps, interval, k);
    t := TargetsAreOld(states[k], if steps[k].Compact? then steps[k].id else steps[k].late, interval);
  }

  // ---------- what one round achieves ----------

  /** The value of the last swap; 0 before the first. */
  function LastValue(st: Store): nat {
    if st.swaps == [] then 0 else st.swaps[|st.swaps| - 1].value
  }

  /** An answered transaction leaves its sender with the version and the revision that the store then has. It
      is followed by a Compact call if and only if it swapped a key that was there before, and the call asks
      for the value that was just put. Told of a failure, the sender sleeps on with what it knew. */
  lemma {:induction false} TxnOutcome(s: State, id: nat, fate: Fate, wake: nat, interval: nat)
    requires Valid(s, interval) && Enabled(s, Txn(id, fate, wake), interval)
    ensures
      var after := Next(s, Txn(id, fate, wake), interval);
      var p := s.procs[id];
      var q := after.procs[id];
      && q.local == (if fate == Answered then Local(after.store.version, after.store.revision) else p.local)
      && (q.Calling? <==> fate == Answered && p.local.time == s.store.version > 0)
      && (q.Calling? ==> q.target == LastValue(after.store) == p.local.rev)
      && (!q.Calling? ==> q.Sleeping? && q.wake == wake)
  {
    hide SwapOk, WasCurrent, History;
    assert ProcOk(s.store, s.procs[id], s.clock, interval);
  }

  /** A process whose time has come can run its transaction, and one that has swapped can call Compact: what
      the store has compacted afterwards is the target, or was past it already. */
  lemma {:induction false} RoundGoesOn(s: State, id: nat, wake: nat, interval: nat)
    requires Valid(s, interval) && id in s.procs && wake >= s.clock + interval
    ensures s.procs[id].Sleeping? && s.procs[id].wake <= s.clock ==> Enabled(s, Txn(id, Answered, wake), interval)
    ensures
      s.procs[id].Calling? ==>
        && Enabled(s, Compact(id, Answered, wake), interval)
        && var after := Next(s, Compact(id, Answered, wake), interval);
           && after.store.compacted == (if s.store.compacted < s.procs[id].target then s.procs[id].target else s.store.compacted)
           && after.procs[id] == Sleeping(s.procs[id].local, s.procs[id].seen, wake)
  {
    if s.procs[id].Calling? {
      var t := TargetsAreOld(s, id, interval);
    }
  }

  // ---------- runs in which nothing is lost ----------

  /** No crash, and every request is answered before its sender goes on. */
  predicate Quiet(step: Step) {
    match step
    case Crash(_) => false
    case Delay(_, _, _) => false
    case Txn(_, fate, _) => fate == Answered
    case Compact(_, fate, _) => fate == Answered
    case _ => true
  }

  /** The last swap has been followed by its compaction, or its sender is about to ask for it. */
  ghost predicate Prompt(s: State) {
    && (forall id :: id in s.procs ==> s.procs[id].Sleeping? || s.procs[id].Calling?)
    && (s.store.compacted == LastValue(s.store) ||
        exists id :: id in s.procs && s.procs[id].Calling? && s.procs[id].target == LastValue(s.store))
  }

  lemma {:induction false} CompactedBelow(s: State, interval: nat)
    requires Valid(s, interval)
    ensures s.store.compacted <= LastValue(s.store) <= s.store.revision
  {
    if s.store.swaps != [] {
      assert SwapOk(s.store, |s.store.swaps| - 1, s.clock, interval);
      if s.store.compacted != 0 {
        var n :| 0 < n < |s.store.swaps| && s.store.swaps[n].value == s.store.compacted;
        if n < |s.store.swaps| - 1 {
          SwapsApart(s, interval, n, |s.store.swaps| - 1);
        }
      }
    }
  }

  lemma {:induction false} TxnPrompt(s: State, id: nat, wake: nat, interval: nat)
    requires Valid(s, interval) && Prompt(s) && Enabled(s, Txn(id, Answered, wake), interval)
    ensures Prompt(Next(s, Txn(id, Answered, wake), interval))
  {
    hide Valid, AfterTxn;
    var after := Next(s, Txn(id, Answered, wake), interval);
    TxnOutcome(s, id, Answered, wake, interval);
    if !after.procs[id].Calling? {
      if s.procs[id].local.time == s.store.version {
        StepKeeps(s, Txn(id, Answered, wake), interval);
        CompactedBelow(after, interval);
        FirstSwap(s, id, interval);
      } else if s.store.compacted != LastValue(s.store) {
        var i :| i in s.procs && s.procs[i].Calling? && s.procs[i].target == LastValue(s.store);
        assert after.procs[i] == s.procs[i];
      }
    }
  }

  lemma {:induction false} FirstSwap(s: State, id: nat, interval: nat)
    requires Valid(s, interval) && id in s.procs && s.procs[id].local.time == s.store.version == 0
    ensures LastValue(ApplyTxn(s.store, s.clock, s.procs[id].local)) == 0
  {
    assert ProcOk(s.store, s.procs[id], s.clock, interval);
  }

  lemma {:induction false} CompactPrompt(s: State, id: nat, wake: nat, interval: nat)
    requires Valid(s, interval) && Prompt(s) && Enabled(s, Compact(id, Answered, wake), interval)
    ensures Prompt(Next(s, Compact(id, Answered, wake), interval))
  {
    hide SwapOk, ProcOk, History;
    var after := Next(s, Compact(id, Answered, wake), interval);
    RoundGoesOn(s, id, wake, interval);
    CompactedBelow(s, interval);
    StepKeeps(s, Compact(id, Answered, wake), interval);
    CompactedBelow(after, interval);
    assert LastValue(after.store) == LastValue(s.store);
    if s.store.compacted != LastValue(s.store) {
      var i :| i in s.procs && s.procs[i].Calling? && s.procs[i].target == LastValue(s.store);
      if i != id {
        assert after.procs[i] == s.procs[i];
      }
    }
  }

  lemma {:induction false} QuietStep(s: State, step: Step, interval: nat)
    requires Valid(s, interval) && Prompt(s) && Enabled(s, step, interval) && Quiet(step)
    ensures Prompt(Next(s, step, interval))
  {
    hide Valid;
    if step.Txn? {
      TxnPrompt(s, step.id, step.wake, interval);
    } else if step.Compact? {
      CompactPrompt(s, step.id, step.wake, interval);
    } else {
      var after := Next(s, step, interval);
      if s.store.compacted != LastValue(s.store) {
        var i :| i in s.procs && s.procs[i].Calling? && s.procs[i].target == LastValue(s.store);
        assert i in after.procs && after.procs[i] == s.procs[i];
      }
    }
  }

  lemma {:induction false} QuietPrompt(states: seq<State>, steps: seq<Step>, interval: nat, k: nat)
    requires Run(states, steps, interval) && k <= |steps|
    requires forall i :: 0 <= i < k ==> Quiet(steps[i])
    ensures Prompt(states[k])
  {
    hide Enabled, Next, Quiet;
    if k > 0 {
      QuietPrompt(states, steps, interval, k - 1);
      RunValid(states, steps, interval, k - 1);
      QuietStep(states[k - 1], steps[k - 1], interval);
    }
  }

  /** As long as no process crashes and every request is answered, the store has compacted the value of the
      last swap whenever no process is between its swap and its Compact call. */
  lemma {:induction false} QuietRunCompacts(states: seq<State>, steps: seq<Step>, interval: nat, k: nat)
    requires Run(states, steps, interval) && k <= |steps|
    requires forall i :: 0 <= i < k ==> Quiet(steps[i])
    requires forall id :: id in states[k].procs ==> !states[k].procs[id].Calling?
    ensures states[k].store.compacted == LastValue(states[k].store)
  {
    hide Enabled, Next, Quiet, LastValue;
    QuietPrompt(states, steps, interval, k);
  }
}
