/** The filtered watch (registry/generic/watcher.go) and the cache that consumes it
    (controllers/types/impl/dc.go). Keys are the names that are left when the watched prefix is cut off. */
module FilteredWatch {
  import opened ByteStrings

  type Key = string

  datatype Obj = Obj(text: Bytes)

  /** decode is JSON decoding into the watched type; filter is internalFilter, None when the predicate
      selects everything. The filter is also asked about objects that are missing. */
  datatype Rules = Rules(decode: Bytes -> Option<Obj>, filter: Option<Option<Obj> -> bool>)

  // ---------- the store ----------

  datatype Op = Put(key: Key, val: Bytes) | Delete(key: Key)

  datatype Entry = Entry(val: Bytes, created: nat, modified: nat)

  type Content = map<Key, Entry>

  /** What one operation does at revision `rev`. */
  function Write(st: Content, op: Op, rev: nat): Content {
    match op
    case Put(key, val) => st[key := Entry(val, if key in st then st[key].created else rev, rev)]
    case Delete(key) => st - {key}
  }

  /** The store after the first r operations; the operation at index r - 1 makes revision r. */
  function StoreAt(log: seq<Op>, r: nat): Content
    requires r <= |log|
  {
    if r == 0 then map[] else Write(StoreAt(log, r - 1), log[r - 1], r)
  }

  // ---------- events ----------

  datatype Event = Event(key: Key, value: Bytes, prevValue: Bytes, isDeleted: bool, isCreated: bool)

  /** parseKV on an entry of the snapshot. The previous value is read at the snapshot's own revision,
      so it is the value itself. */
  function ParseKV(key: Key, kv: Entry, prevVal: Bytes): Event {
    Event(key, kv.val, prevVal, false, kv.modified == kv.created)
  }

  /** parseEvent on what the watch sends for revision r + 1; a key that did not exist has no previous value. */
  function ParseEvent(log: seq<Op>, r: nat): Event
    requires r < |log|
  {
    var before := StoreAt(log, r);
    var prev := if log[r].key in before then before[log[r].key].val else [];
    match log[r]
    case Put(key, val) => Event(key, val, prev, false, key !in before)
    case Delete(key) => Event(key, [], prev, true, false)
  }

  /** What the user of the watch receives. */
  datatype Out = Added(key: Key, obj: Option<Obj>) | Modified(key: Key, obj: Option<Obj>) | Deleted(key: Key, obj: Option<Obj>)

  datatype Transformed = Undecodable | Nothing | Send(out: Out)

  function Passes(rules: Rules, obj: Option<Obj>): bool {
    rules.filter.Some? ==> rules.filter.value(obj)
  }

  /** prepareObjs: the current and the old object, or the decoder's error. */
  function PrepareObjs(rules: Rules, e: Event): Option<(Option<Obj>, Option<Obj>)> {
    var cur := if e.isDeleted then None else rules.decode(e.value);
    if !e.isDeleted && cur.None? then None
    else if |e.prevValue| > 0 && (e.isDeleted || rules.filter.Some?) then
      match rules.decode(e.prevValue)
      case None => None
      case Some(o) => Some((cur, Some(o)))
    else Some((cur, None))
  }

  function Transform(rules: Rules, e: Event): Transformed {
    match PrepareObjs(rules, e)
    case None => Undecodable
    case Some((cur, prev)) =>
      if e.isDeleted then if !Passes(rules, prev) then Nothing else Send(Deleted(e.key, prev))
      else if e.isCreated then if !Passes(rules, cur) then Nothing else Send(Added(e.key, cur))
      else if rules.filter.None? then Send(Modified(e.key, cur))
      else if Passes(rules, cur) && Passes(rules, prev) then Send(Modified(e.key, cur))
      else if Passes(rules, cur) then Send(Added(e.key, cur))
      else if Passes(rules, prev) then Send(Deleted(e.key, prev))
      else Nothing
  }

  // ---------- the consumer ----------

  type Cache = map<Key, Option<Obj>>

  function Handle(c: Cache, out: Out): Cache {
    match out
    case Added(key, obj) => c[key := obj]
    case Modified(key, obj) => c[key := obj]
    case Deleted(key, _) => c - {key}
  }

  function Apply(c: Cache, t: Transformed): Cache {
    if t.Send? then Handle(c, t.out) else c
  }

  /** The manager's dc map. */
  class DeployConfigs {
    var dc: Cache

    constructor (loaded: Cache)
      ensures dc == loaded
    {
      dc := loaded;
    }

    /** The key of the event gets the new object or goes, and no other key is touched. */
    method EventHandler(e: Out)
      modifies this
      ensures e.key in dc <==> !e.Deleted?
      ensures e.key in dc ==> dc[e.key] == e.obj
      ensures forall k :: k != e.key ==> (k in dc <==> k in old(dc)) && (k in dc ==> dc[k] == old(dc)[k])
      ensures dc == Handle(old(dc), e)
    {
      match e {
        case Added(key, obj) => dc := dc[key := obj];
        case Modified(key, obj) => dc := dc[key := obj];
        case Deleted(key, _) => dc := dc - {key};
      }
    }
  }

  // ---------- what the cache should be ----------

  /** Does the entry of this key decode to an object that passes the filter? */
  predicate Selected(rules: Rules, st: Content, k: Key) {
    k in st && rules.decode(st[k].val).Some? && Passes(rules, rules.decode(st[k].val))
  }

  function Filtered(rules: Rules, st: Content): Cache {
    map k | k in st && Selected(rules, st, k) :: rules.decode(st[k].val)
  }

  /** k was selected at some revision from `from` to `to`. */
  ghost predicate Touched(rules: Rules, log: seq<Op>, from: nat, to: nat, k: Key)
    requires to <= |log|
  {
    exists q :: from <= q <= to && Selected(rules, StoreAt(log, q), k)
  }

  predicate Decodes(rules: Rules, st: Content) {
    forall k :: k in st ==> rules.decode(st[k].val).Some?
  }

  /** On the key k the cache c is what the watch should have made of the cache `loaded`. */
  ghost predicate KeyAgrees(rules: Rules, log: seq<Op>, from: nat, to: nat, loaded: Cache, c: Cache, k: Key)
    requires to <= |log|
  {
    if Selected(rules, StoreAt(log, to), k) then k in c && c[k] == rules.decode(StoreAt(log, to)[k].val)
    else if Touched(rules, log, from, to, k) then k !in c
    else (k in c <==> k in loaded) && (k in c ==> c[k] == loaded[k])
  }

  ghost predicate Agrees(rules: Rules, log: seq<Op>, from: nat, to: nat, loaded: Cache, c: Cache) {
    && from <= to <= |log| && Decodes(rules, StoreAt(log, to))
    && forall k :: KeyAgrees(rules, log, from, to, loaded, c, k)
  }

  lemma {:induction false} StoreAtPrefix(log: seq<Op>, more: seq<Op>, r: nat)
    requires r <= |log|
    ensures StoreAt(log + more, r) == StoreAt(log, r)
  {
    if r > 0 {
      StoreAtPrefix(log, more, r - 1);
    }
  }

  /** The heart of it: one event of the tail brings the cache from one revision to the next. */
  lemma {:induction false} TailEvent(rules: Rules, log: seq<Op>, from: nat, r: nat, loaded: Cache, c: Cache)
    requires rules.decode([]) == None && r < |log|
    requires Agrees(rules, log, from, r, loaded, c) && !Transform(rules, ParseEvent(log, r)).Undecodable?
    requires log[r].Delete? ==> log[r].key in StoreAt(log, r)
    ensures Agrees(rules, log, from, r + 1, loaded, Apply(c, Transform(rules, ParseEvent(log, r))))
  {
    var to := r + 1;
    var next := Apply(c, Transform(rules, ParseEvent(log, r)));
    forall k
      ensures KeyAgrees(rules, log, from, to, loaded, next, k)
    {
      assert KeyAgrees(rules, log, from, r, loaded, c, k);
      TouchedStep(rules, log, from, r, k);
    }
  }

  lemma {:induction false} TouchedStep(rules: Rules, log: seq<Op>, from: nat, r: nat, k: Key)
    requires from <= r < |log|
    ensures Touched(rules, log, from, r + 1, k) <==>
            Touched(rules, log, from, r, k) || Selected(rules, StoreAt(log, r + 1), k)
    ensures Selected(rules, StoreAt(log, r), k) ==> Touched(rules, log, from, r, k)
    ensures k != log[r].key ==>
              (Selected(rules, StoreAt(log, r + 1), k) <==> Selected(rules, StoreAt(log, r), k))
  {
  }

  // ---------- the snapshot ----------

  /** The events that sync sends for the entries it got, in the order it got them. */
  function SyncEvents(st: Content, order: seq<Key>): (es: seq<Event>)
    requires forall k :: k in order ==> k in st
    ensures |es| == |order|
  {
    seq(|order|, i requires 0 <= i < |order| => ParseKV(order[i], st[order[i]], st[order[i]].val))
  }

  /** The loop of sync. Each previous value is read back at the snapshot's revision. */
  method Sync(st: Content, order: seq<Key>) returns (events: seq<Event>)
    requires forall k :: k in order ==> k in st
    ensures events == SyncEvents(st, order)
  {
    events := [];
    for i := 0 to |order|
      invariant events == SyncEvents(st, order[..i])
    {
      var kv := st[order[i]];
      var prevVal := st[order[i]].val;
      events := events + [ParseKV(order[i], kv, prevVal)];
      assert order[..i + 1] == order[..i] + [order[i]];
    }
    assert order[..|order|] == order;
  }

  /** Halfway through the snapshot: the keys in `done` are as in the store, the others as loaded. */
  ghost predicate PartlyAgrees(rules: Rules, st: Content, done: set<Key>, loaded: Cache, c: Cache) {
    && (forall k :: k in done ==> k in st && rules.decode(st[k].val).Some?)
    && forall k ::
         if k in done && Selected(rules, st, k) then k in c && c[k] == rules.decode(st[k].val)
         else (k in c <==> k in loaded) && (k in c ==> c[k] == loaded[k])
  }

  lemma {:induction false} SyncEvent(rules: Rules, st: Content, done: set<Key>, k: Key, loaded: Cache, c: Cache)
    requires rules.decode([]) == None && k in st && k !in done && PartlyAgrees(rules, st, done, loaded, c)
    requires !Transform(rules, ParseKV(k, st[k], st[k].val)).Undecodable?
    ensures PartlyAgrees(rules, st, done + {k}, loaded, Apply(c, Transform(rules, ParseKV(k, st[k], st[k].val))))
  {
    assert rules.decode(st[k].val).Some?;
    assert |st[k].val| > 0;
  }

  lemma {:induction false} SnapshotDone(rules: Rules, log: seq<Op>, r: nat, loaded: Cache, c: Cache)
    requires r <= |log| && PartlyAgrees(rules, StoreAt(log, r), StoreAt(log, r).Keys, loaded, c)
    ensures Agrees(rules, log, r, r, loaded, c)
  {
    forall k
      ensures KeyAgrees(rules, log, r, r, loaded, c, k)
    {
      assert Touched(rules, log, r, r, k) <==> Selected(rules, StoreAt(log, r), k);
    }
  }

  // ---------- the goroutines as a state machine ----------

  /** Not yet started, in sync with the keys still to be sent, or watching from revision next + 1 on. */
  datatype Phase = Idle | Syncing(from: nat, sent: seq<Key>, left: seq<Key>) | Tailing(from: nat, next: nat)

  datatype State = State(
    log: seq<Op>, phase: Phase, incoming: seq<Event>, results: seq<Out>, cache: Cache, failed: bool)

  datatype Step = Writing(op: Op) | Get(order: seq<Key>) | SendSync | StartTail | SendTail | Process | Consume

  const BUF_SIZE := 100

  ghost predicate Enabled(s: State, step: Step) {
    match step
    case Writing(op) => op.Delete? ==> op.key in StoreAt(s.log, |s.log|)
    case Get(order) =>
      s.phase.Idle? && (forall k :: k in order <==> k in StoreAt(s.log, |s.log|))
      && forall i, j :: 0 <= i < j < |order| ==> order[i] != order[j]
    case SendSync =>
      s.phase.Syncing? && s.phase.left != [] && |s.incoming| < BUF_SIZE
      && s.phase.from <= |s.log| && s.phase.left[0] in StoreAt(s.log, s.phase.from)
    case StartTail => s.phase.Syncing? && s.phase.left == []
    case SendTail => s.phase.Tailing? && s.phase.next < |s.log| && |s.incoming| < BUF_SIZE
    case Process => s.incoming != [] && |s.results| < BUF_SIZE
    case Consume => s.results != []
  }

  function Next(rules: Rules, s: State, step: Step): State
    requires Enabled(s, step)
  {
    match step
    case Writing(op) => s.(log := s.log + [op])
    case Get(order) => s.(phase := Syncing(|s.log|, [], order))
    case SendSync =>
      var k := s.phase.left[0];
      var kv := StoreAt(s.log, s.phase.from)[k];
      s.(phase := Syncing(s.phase.from, s.phase.sent + [k], s.phase.left[1..]),
         incoming := s.incoming + [ParseKV(k, kv, kv.val)])
    case StartTail => s.(phase := Tailing(s.phase.from, s.phase.from))
    case SendTail =>
      s.(phase := s.phase.(next := s.phase.next + 1), incoming := s.incoming + [ParseEvent(s.log, s.phase.next)])
    case Process =>
      var rest := s.(incoming := s.incoming[1..]);
      (match Transform(rules, s.incoming[0])
       case Undecodable => rest.(failed := true)
       case Nothing => rest
       case Send(out) => rest.(results := s.results + [out]))
    case Consume => s.(cache := Handle(s.cache, s.results[0]), results := s.results[1..])
  }

  predicate Init(s: State, loaded: Cache) {
    && s.phase.Idle? && s.incoming == [] && s.results == [] && s.cache == loaded && !s.failed
    && forall i :: 0 <= i < |s.log| && s.log[i].Delete? ==> s.log[i].key in StoreAt(s.log, i)
  }

  // ---------- the invariant ----------

  function ApplyOuts(c: Cache, outs: seq<Out>): Cache
    decreases |outs|
  {
    if outs == [] then c else ApplyOuts(Handle(c, outs[0]), outs[1..])
  }

  function ApplyEvents(rules: Rules, c: Cache, events: seq<Event>): Cache
    decreases |events|
  {
    if events == [] then c else ApplyEvents(rules, Apply(c, Transform(rules, events[0])), events[1..])
  }

  /** The cache once both queues are worked off. */
  function Drained(rules: Rules, s: State): Cache {
    ApplyEvents(rules, ApplyOuts(s.cache, s.results), s.incoming)
  }

  /** No error so far and none waiting. */
  ghost predicate Sound(rules: Rules, s: State) {
    !s.failed && forall i :: 0 <= i < |s.incoming| ==> !Transform(rules, s.incoming[i]).Undecodable?
  }

  ghost predicate Valid(rules: Rules, s: State, loaded: Cache) {
    && (forall i :: 0 <= i < |s.log| && s.log[i].Delete? ==> s.log[i].key in StoreAt(s.log, i))
    && match s.phase
       case Idle => s.incoming == [] && s.results == [] && s.cache == loaded && !s.failed
       case Syncing(from, sent, left) =>
         && from <= |s.log|
         && (forall k :: k in StoreAt(s.log, from) <==> k in sent || k in left)
         && (forall k :: k in sent ==> k !in left)
         && (forall i, j :: 0 <= i < j < |left| ==> left[i] != left[j])
         && (Sound(rules, s) ==> PartlyAgrees(rules, StoreAt(s.log, from), (set k | k in sent), loaded, Drained(rules, s)))
       case Tailing(from, next) =>
         && next <= |s.log|
         && (Sound(rules, s) ==> Agrees(rules, s.log, from, next, loaded, Drained(rules, s)))
  }

  lemma {:induction false} ApplyOutsSnoc(c: Cache, outs: seq<Out>, out: Out)
    ensures ApplyOuts(c, outs + [out]) == Handle(ApplyOuts(c, outs), out)
    decreases |outs|
  {
    if outs == [] {
      assert (outs + [out])[1..] == [];
    } else {
      assert (outs + [out])[1..] == outs[1..] + [out];
      ApplyOutsSnoc(Handle(c, outs[0]), outs[1..], out);
    }
  }

  lemma {:induction false} ApplyEventsSnoc(rules: Rules, c: Cache, events: seq<Event>, e: Event)
    ensures ApplyEvents(rules, c, events + [e]) == Apply(ApplyEvents(rules, c, events), Transform(rules, e))
    decreases |events|
  {
    hide Transform;
    if events == [] {
      assert (events + [e])[1..] == [];
    } else {
      assert (events + [e])[1..] == events[1..] + [e];
      ApplyEventsSnoc(rules, Apply(c, Transform(rules, events[0])), events[1..], e);
    }
  }

  lemma {:induction false} AgreesPrefix(rules: Rules, log: seq<Op>, op: Op, from: nat, to: nat, loaded: Cache, c: Cache)
    requires Agrees(rules, log, from, to, loaded, c)
    ensures Agrees(rules, log + [op], from, to, loaded, c)
  {
    var longer := log + [op];
    forall q | from <= q <= to
      ensures StoreAt(longer, q) == StoreAt(log, q)
    {
      StoreAtPrefix(log, [op], q);
    }
    forall k
      ensures KeyAgrees(rules, longer, from, to, loaded, c, k)
    {
      assert KeyAgrees(rules, log, from, to, loaded, c, k);
    }
  }

  lemma {:induction false} SoundOf(rules: Rules, s: State, t: State)
    requires s.incoming == t.incoming && s.failed == t.failed
    ensures Sound(rules, s) <==> Sound(rules, t)
  {
  }

  lemma {:induction false} DeletesKept(log: seq<Op>, op: Op)
    requires forall i :: 0 <= i < |log| && log[i].Delete? ==> log[i].key in StoreAt(log, i)
    requires op.Delete? ==> op.key in StoreAt(log, |log|)
    ensures forall i :: 0 <= i < |log + [op]| && (log + [op])[i].Delete? ==> (log + [op])[i].key in StoreAt(log + [op], i)
  {
    var longer := log + [op];
    forall i | 0 <= i < |longer| && longer[i].Delete?
      ensures longer[i].key in StoreAt(longer, i)
    {
      StoreAtPrefix(log, [op], i);
    }
  }

  lemma {:induction false} WritingKeeps(rules: Rules, s: State, op: Op, loaded: Cache)
    requires Valid(rules, s, loaded) && Enabled(s, Writing(op))
    ensures Valid(rules, Next(rules, s, Writing(op)), loaded)
  {
    hide Transform, Drained, PartlyAgrees, Agrees, Sound;
    SoundOf(rules, s, Next(rules, s, Writing(op)));
    var longer := s.log + [op];
    DrainedOf(rules, s, Next(rules, s, Writing(op)));
    DeletesKept(s.log, op);
    hide StoreAt;
    match s.phase
    case Idle =>
    case Syncing(from, sent, left) => StoreAtPrefix(s.log, [op], from);
    case Tailing(from, next) =>
      if Sound(rules, s) {
        AgreesPrefix(rules, s.log, op, from, next, loaded, Drained(rules, s));
      }
  }

  lemma {:induction false} SendKeeps(rules: Rules, s: State, e: Event, phase: Phase)
    requires Sound(rules, s.(phase := phase, incoming := s.incoming + [e]))
    ensures Sound(rules, s) && !Transform(rules, e).Undecodable?
    ensures Drained(rules, s.(phase := phase, incoming := s.incoming + [e])) ==
            Apply(Drained(rules, s), Transform(rules, e))
  {
    hide Transform;
    ApplyEventsSnoc(rules, ApplyOuts(s.cache, s.results), s.incoming, e);
    var es := s.incoming + [e];
    assert es[|s.incoming|] == e;
    assert forall i :: 0 <= i < |s.incoming| ==> es[i] == s.incoming[i];
  }

  lemma {:induction false} SendSyncKeeps(rules: Rules, s: State, loaded: Cache)
    requires rules.decode([]) == None && Valid(rules, s, loaded) && Enabled(s, SendSync)
    ensures Valid(rules, Next(rules, s, SendSync), loaded)
  {
    hide Transform, Drained, ParseKV;
    var k := s.phase.left[0];
    var st := StoreAt(s.log, s.phase.from);
    var after := Next(rules, s, SendSync);
    assert s.phase.left == [k] + after.phase.left;
    if Sound(rules, after) {
      SendKeeps(rules, s, ParseKV(k, st[k], st[k].val), after.phase);
      var done := set x | x in s.phase.sent;
      SyncEvent(rules, st, done, k, loaded, Drained(rules, s));
      assert (set x | x in after.phase.sent) == done + {k};
    }
  }

  lemma {:induction false} StartTailKeeps(rules: Rules, s: State, loaded: Cache)
    requires Valid(rules, s, loaded) && Enabled(s, StartTail)
    ensures Valid(rules, Next(rules, s, StartTail), loaded)
  {
    hide Transform, Drained;
    var after := Next(rules, s, StartTail);
    if Sound(rules, after) {
      assert Drained(rules, after) == Drained(rules, s) by { DrainedOf(rules, s, after); }
      assert (set x | x in s.phase.sent) == StoreAt(s.log, s.phase.from).Keys;
      SnapshotDone(rules, s.log, s.phase.from, loaded, Drained(rules, s));
    }
  }

  lemma {:induction false} DrainedOf(rules: Rules, s: State, t: State)
    requires s.cache == t.cache && s.results == t.results && s.incoming == t.incoming
    ensures Drained(rules, s) == Drained(rules, t)
  {
  }

  lemma {:induction false} SendTailKeeps(rules: Rules, s: State, loaded: Cache)
    requires rules.decode([]) == None && Valid(rules, s, loaded) && Enabled(s, SendTail)
    ensures Valid(rules, Next(rules, s, SendTail), loaded)
  {
    hide Transform, Drained, ParseEvent, KeyAgrees, StoreAt;
    var after := Next(rules, s, SendTail);
    if Sound(rules, after) {
      SendKeeps(rules, s, ParseEvent(s.log, s.phase.next), after.phase);
      TailEvent(rules, s.log, s.phase.from, s.phase.next, loaded, Drained(rules, s));
    }
  }

  /** Working off a queue does not change what the cache will be. */
  lemma {:induction false} QueueKeeps(rules: Rules, s: State, step: Step)
    requires (step.Process? || step.Consume?) && Enabled(s, step) && Sound(rules, Next(rules, s, step))
    ensures Sound(rules, s) && Drained(rules, Next(rules, s, step)) == Drained(rules, s)
  {
    hide Transform;
    if step.Process? {
      assert s.incoming == [s.incoming[0]] + s.incoming[1..];
      var t := Transform(rules, s.incoming[0]);
      if t.Send? {
        ApplyOutsSnoc(s.cache, s.results, t.out);
      }
    }
  }

  lemma {:induction false} GetKeeps(rules: Rules, s: State, order: seq<Key>, loaded: Cache)
    requires Valid(rules, s, loaded) && Enabled(s, Get(order))
    ensures Valid(rules, Next(rules, s, Get(order)), loaded)
  {
    hide StoreAt;
    var after := Next(rules, s, Get(order));
    assert Drained(rules, after) == loaded;
    assert (set k: Key | k in after.phase.sent) == {};
  }

  lemma {:induction false} WorkKeeps(rules: Rules, s: State, step: Step, loaded: Cache)
    requires Valid(rules, s, loaded) && Enabled(s, step) && (step.Process? || step.Consume?)
    ensures Valid(rules, Next(rules, s, step), loaded)
  {
    hide Drained, Transform, StoreAt;
    if Sound(rules, Next(rules, s, step)) {
      QueueKeeps(rules, s, step);
    }
  }

  lemma {:induction false} StepKeeps(rules: Rules, s: State, step: Step, loaded: Cache)
    requires rules.decode([]) == None && Valid(rules, s, loaded) && Enabled(s, step)
    ensures Valid(rules, Next(rules, s, step), loaded)
  {
    match step
    case Writing(op) => WritingKeeps(rules, s, op, loaded);
    case Get(order) => GetKeeps(rules, s, order, loaded);
    case SendSync => SendSyncKeeps(rules, s, loaded);
    case StartTail => StartTailKeeps(rules, s, loaded);
    case SendTail => SendTailKeeps(rules, s, loaded);
    case Process => WorkKeeps(rules, s, step, loaded);
    case Consume => WorkKeeps(rules, s, step, loaded);
  }

  // ---------- whole runs ----------

  ghost predicate Run(rules: Rules, states: seq<State>, steps: seq<Step>, loaded: Cache) {
    && |states| == |steps| + 1 && Init(states[0], loaded)
    && forall k :: 0 <= k < |steps| ==> Enabled(states[k], steps[k]) && states[k + 1] == Next(rules, states[k], steps[k])
  }

  lemma {:induction false} RunValid(rules: Rules, states: seq<State>, steps: seq<Step>, loaded: Cache, k: nat)
    requires rules.decode([]) == None && Run(rules, states, steps, loaded) && k <= |steps|
    ensures Valid(rules, states[k], loaded)
  {
    if k > 0 {
      RunValid(rules, states, steps, loaded, k - 1);
      StepKeeps(rules, states[k - 1], steps[k - 1], loaded);
    }
  }

  /** In every run without a decoding error, once the queues are empty the cache that started empty is
      exactly the store at the watched revision, filtered. */
  lemma {:induction false} DrainedCacheIsFiltered(rules: Rules, states: seq<State>, steps: seq<Step>, k: nat)
    requires rules.decode([]) == None && Run(rules, states, steps, map[]) && k <= |steps|
    requires var s := states[k]; !s.failed && s.phase.Tailing? && s.incoming == [] && s.results == []
    ensures states[k].phase.next <= |states[k].log|
    ensures states[k].cache == Filtered(rules, StoreAt(states[k].log, states[k].phase.next))
  {
    RunValid(rules, states, steps, map[], k);
    var s := states[k];
    assert Drained(rules, s) == s.cache;
    var want := Filtered(rules, StoreAt(s.log, s.phase.next));
    forall x
      ensures x in s.cache <==> x in want
      ensures x in s.cache ==> s.cache[x] == want[x]
    {
      assert KeyAgrees(rules, s.log, s.phase.from, s.phase.next, map[], s.cache, x);
    }
  }

  /** A cache that was loaded before the watch began is right in the end if and only if every key that was
      loaded has passed the filter at some revision the watch saw; a key that was deleted between the load
      and the snapshot stays for ever. */
  lemma {:induction false} LoadedCacheIsFiltered(rules: Rules, states: seq<State>, steps: seq<Step>, loaded: Cache,
      k: nat)
    requires rules.decode([]) == None && Run(rules, states, steps, loaded) && k <= |steps|
    requires var s := states[k]; !s.failed && s.phase.Tailing? && s.incoming == [] && s.results == []
    ensures states[k].phase.next <= |states[k].log|
    ensures
      var s := states[k];
      s.cache == Filtered(rules, StoreAt(s.log, s.phase.next)) <==>
      forall x :: x in loaded ==> Touched(rules, s.log, s.phase.from, s.phase.next, x)
  {
    RunValid(rules, states, steps, loaded, k);
    var s := states[k];
    assert Drained(rules, s) == s.cache;
    var want := Filtered(rules, StoreAt(s.log, s.phase.next));
    forall x
      ensures KeyAgrees(rules, s.log, s.phase.from, s.phase.next, loaded, s.cache, x)
    {
    }
    if s.cache == want {
      forall x | x in loaded
        ensures Touched(rules, s.log, s.phase.from, s.phase.next, x)
      {
        assert KeyAgrees(rules, s.log, s.phase.from, s.phase.next, loaded, s.cache, x);
      }
    } else if forall x :: x in loaded ==> Touched(rules, s.log, s.phase.from, s.phase.next, x) {
      forall x
        ensures x in s.cache <==> x in want
        ensures x in s.cache ==> s.cache[x] == want[x]
      {
        assert KeyAgrees(rules, s.log, s.phase.from, s.phase.next, loaded, s.cache, x);
      }
      assert false;
    }
  }

  /** As long as nothing has been written behind the snapshot the condition is one that can be checked at the
      snapshot: every loaded key is there and passes the filter. */
  lemma {:induction false} LoadedAtSnapshot(rules: Rules, states: seq<State>, steps: seq<Step>, loaded: Cache, k: nat)
    requires rules.decode([]) == None && Run(rules, states, steps, loaded) && k <= |steps|
    requires var s := states[k]; !s.failed && s.phase.Tailing? && s.incoming == [] && s.results == []
    requires states[k].phase.next == states[k].phase.from
    ensures states[k].phase.from <= |states[k].log|
    ensures
      var s := states[k];
      var st := StoreAt(s.log, s.phase.from);
      s.cache == Filtered(rules, st) <==> forall x :: x in loaded ==> Selected(rules, st, x)
  {
    hide StoreAt, Filtered, Selected;
    LoadedCacheIsFiltered(rules, states, steps, loaded, k);
    var s := states[k];
    forall x
      ensures Touched(rules, s.log, s.phase.from, s.phase.from, x) <==> Selected(rules, StoreAt(s.log, s.phase.from), x)
    {
    }
  }

  /** A key that was loaded and deleted before the watch took its snapshot: the watch never mentions it, and
      the cache keeps it for good. */
  lemma {:induction false} StaleKey(rules: Rules, key: Key, val: Bytes, obj: Option<Obj>, states: seq<State>,
      steps: seq<Step>)
    requires steps == [Get([]), StartTail]
    requires
      var log := [Put(key, val), Delete(key)];
      states == [
        State(log, Idle, [], [], map[key := obj], false),
        State(log, Syncing(2, [], []), [], [], map[key := obj], false),
        State(log, Tailing(2, 2), [], [], map[key := obj], false)]
    ensures Run(rules, states, steps, map[key := obj])
    ensures states[2].cache != Filtered(rules, StoreAt(states[2].log, states[2].phase.next))
  {
    var log := states[0].log;
    TwoWrites(log, key, val);
    hide StoreAt;
    assert Enabled(states[0], steps[0]) && states[1] == Next(rules, states[0], steps[0]);
    assert Enabled(states[1], steps[1]) && states[2] == Next(rules, states[1], steps[1]);
    assert key !in Filtered(rules, StoreAt(log, 2));
  }

  lemma {:induction false} TwoWrites(log: seq<Op>, key: Key, val: Bytes)
    requires log == [Put(key, val), Delete(key)]
    ensures key in StoreAt(log, 1) && StoreAt(log, 2) == map[]
  {
    assert StoreAt(log, 0) == map[];
    assert StoreAt(log, 1) == map[key := Entry(val, 1, 1)];
  }
}
