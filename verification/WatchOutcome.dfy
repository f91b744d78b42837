/** Which event comes out of the filtered watch, when it fails, and that it catches up with the store
    (registry/generic/watcher.go). */
module WatchOutcome {
  import opened ByteStrings
  import opened FilteredWatch

  // ---------- the event for one revision ----------

  /** A change of key k is reported as what it does to the filtered store: the key comes in, stays, or goes,
      with the new object, the new one and the old one. */
  lemma {:induction false} TailSends(rules: Rules, log: seq<Op>, r: nat)
    requires rules.decode([]) == None && r < |log| && Decodes(rules, StoreAt(log, r))
    requires log[r].Put? ==> rules.decode(log[r].val).Some?
    requires log[r].Delete? ==> log[r].key in StoreAt(log, r)
    ensures
      var k := log[r].key;
      var before := Selected(rules, StoreAt(log, r), k);
      var after := Selected(rules, StoreAt(log, r + 1), k);
      Transform(rules, ParseEvent(log, r)) ==
      if before && after then Send(Modified(k, rules.decode(StoreAt(log, r + 1)[k].val)))
      else if after then Send(Added(k, rules.decode(StoreAt(log, r + 1)[k].val)))
      else if before then Send(Deleted(k, rules.decode(StoreAt(log, r)[k].val)))
      else Nothing
  {
  }

  /** It is a decoding error if and only if the new value does not decode, or the old one is needed, is not
      empty and does not decode. */
  lemma {:induction false} TailFails(rules: Rules, log: seq<Op>, r: nat)
    requires r < |log|
    ensures
      var before := StoreAt(log, r);
      var k := log[r].key;
      Transform(rules, ParseEvent(log, r)).Undecodable? <==>
      || (log[r].Put? && rules.decode(log[r].val).None?)
      || (k in before && before[k].val != [] && rules.decode(before[k].val).None? && (log[r].Delete? || rules.filter.Some?))
  {
  }

  // ---------- the event for one entry of the snapshot ----------

  /** An entry of the snapshot is reported only if it is selected: as added if it has been put once since the
      key was last missing, and as modified if it has been put again. */
  lemma {:induction false} SyncSends(rules: Rules, st: Content, k: Key)
    requires rules.decode([]) == None && k in st && rules.decode(st[k].val).Some?
    ensures
      Transform(rules, ParseKV(k, st[k], st[k].val)) ==
      if !Selected(rules, st, k) then Nothing
      else if st[k].created == st[k].modified then Send(Added(k, rules.decode(st[k].val)))
      else Send(Modified(k, rules.decode(st[k].val)))
  {
    assert |st[k].val| > 0;
  }

  lemma {:induction false} SyncFails(rules: Rules, st: Content, k: Key)
    requires k in st
    ensures Transform(rules, ParseKV(k, st[k], st[k].val)).Undecodable? <==> rules.decode(st[k].val).None?
  {
  }

  /** An entry is what the last operation on its key put, and dates from the first put since the key was
      missing. */
  lemma {:induction false} EntryMeans(log: seq<Op>, r: nat, k: Key)
    requires r <= |log| && k in StoreAt(log, r)
    ensures
      var e := StoreAt(log, r)[k];
      && 1 <= e.created <= e.modified <= r
      && log[e.modified - 1] == Put(k, e.val) && (forall i :: e.modified <= i < r ==> log[i].key != k)
      && log[e.created - 1].key == k && k !in StoreAt(log, e.created - 1)
      && forall i :: e.created - 1 <= i < r && log[i].key == k ==> log[i].Put?
  {
    if log[r - 1].key != k || k in StoreAt(log, r - 1) {
      EntryMeans(log, r - 1, k);
    }
  }

  // ---------- when a watch fails ----------

  /** What a step puts on the queue of incoming events. */
  function Sent(s: State, step: Step): Option<Event>
    requires Enabled(s, step)
  {
    match step
    case SendSync =>
      var k := s.phase.left[0];
      var kv := StoreAt(s.log, s.phase.from)[k];
      Some(ParseKV(k, kv, kv.val))
    case SendTail => Some(ParseEvent(s.log, s.phase.next))
    case _ => None
  }

  ghost predicate SendsBad(rules: Rules, s: State, step: Step) {
    Enabled(s, step) && Sent(s, step).Some? && Transform(rules, Sent(s, step).value).Undecodable?
  }

  /** A step makes or announces a failure only by sending an event that cannot be decoded. */
  lemma {:induction false} SoundStep(rules: Rules, s: State, step: Step)
    requires Enabled(s, step)
    ensures Sound(rules, Next(rules, s, step)) <==> Sound(rules, s) && !SendsBad(rules, s, step)
  {
    hide Transform, StoreAt, ParseKV, ParseEvent;
    var after := Next(rules, s, step);
    match step
    case SendSync => SoundSnoc(rules, s, after, Sent(s, step).value);
    case SendTail => SoundSnoc(rules, s, after, Sent(s, step).value);
    case Process => SoundTail(rules, s, after);
    case _ =>
  }

  lemma {:induction false} SoundSnoc(rules: Rules, s: State, after: State, e: Event)
    requires after.incoming == s.incoming + [e] && after.failed == s.failed
    ensures Sound(rules, after) <==> Sound(rules, s) && !Transform(rules, e).Undecodable?
  {
    hide Transform;
    assert after.incoming[|s.incoming|] == e;
    assert forall i :: 0 <= i < |s.incoming| ==> after.incoming[i] == s.incoming[i];
  }

  lemma {:induction false} SoundTail(rules: Rules, s: State, after: State)
    requires s.incoming != [] && after.incoming == s.incoming[1..]
    requires after.failed == (s.failed || Transform(rules, s.incoming[0]).Undecodable?)
    ensures Sound(rules, after) <==> Sound(rules, s)
  {
    hide Transform;
    assert forall i :: 0 <= i < |after.incoming| ==> after.incoming[i] == s.incoming[i + 1];
    if Sound(rules, after) {
      forall i | 0 <= i < |s.incoming|
        ensures !Transform(rules, s.incoming[i]).Undecodable?
      {
        if i > 0 {
          assert after.incoming[i - 1] == s.incoming[i];
        }
      }
    }
  }

  lemma {:induction false} StartsSound(rules: Rules, s: State, loaded: Cache)
    requires Init(s, loaded)
    ensures Sound(rules, s)
  {
  }

  /** In every run: a decoding error has happened or is waiting if and only if an event that cannot be decoded
      has been sent. */
  lemma {:induction false} FailsExactly(rules: Rules, states: seq<State>, steps: seq<Step>, loaded: Cache, k: nat)
    requires Run(rules, states, steps, loaded) && k <= |steps|
    ensures Sound(rules, states[k]) <==> forall j :: 0 <= j < k ==> !SendsBad(rules, states[j], steps[j])
  {
    hide Sound, SendsBad;
    if k == 0 {
      StartsSound(rules, states[0], loaded);
    } else {
      FailsExactly(rules, states, steps, loaded, k - 1);
      SoundStep(rules, states[k - 1], steps[k - 1]);
    }
  }

  /** Every value that was ever put decodes. */
  predicate AllDecode(rules: Rules, log: seq<Op>) {
    forall i :: 0 <= i < |log| && log[i].Put? ==> rules.decode(log[i].val).Some?
  }

  lemma {:induction false} StoreDecodes(rules: Rules, log: seq<Op>, r: nat)
    requires r <= |log| && AllDecode(rules, log)
    ensures Decodes(rules, StoreAt(log, r))
  {
    if r > 0 {
      StoreDecodes(rules, log, r - 1);
    }
  }

  lemma {:induction false} LogGrows(rules: Rules, states: seq<State>, steps: seq<Step>, loaded: Cache, j: nat, k: nat)
    requires Run(rules, states, steps, loaded) && j <= k <= |steps|
    ensures states[j].log <= states[k].log
  {
    hide Enabled, Transform;
    if j < k {
      LogGrows(rules, states, steps, loaded, j, k - 1);
      assert states[k] == Next(rules, states[k - 1], steps[k - 1]);
    }
  }

  lemma {:induction false} GoodSends(rules: Rules, s: State, step: Step)
    requires AllDecode(rules, s.log) && Enabled(s, step)
    ensures !SendsBad(rules, s, step)
  {
    hide Transform, ParseEvent, ParseKV;
    match step
    case SendSync =>
      StoreDecodes(rules, s.log, s.phase.from);
      SyncFails(rules, StoreAt(s.log, s.phase.from), s.phase.left[0]);
    case SendTail =>
      StoreDecodes(rules, s.log, s.phase.next);
      TailFails(rules, s.log, s.phase.next);
    case _ =>
  }

  /** A watch over values that decode never fails. */
  lemma {:induction false} NeverFails(rules: Rules, states: seq<State>, steps: seq<Step>, loaded: Cache, k: nat)
    requires Run(rules, states, steps, loaded) && k <= |steps| && AllDecode(rules, states[k].log)
    ensures Sound(rules, states[k]) && !states[k].failed
  {
    hide SendsBad, Transform;
    forall j | 0 <= j < k
      ensures !SendsBad(rules, states[j], steps[j])
    {
      LogGrows(rules, states, steps, loaded, j, k);
      GoodSends(rules, states[j], steps[j]);
    }
    FailsExactly(rules, states, steps, loaded, k);
  }

  // ---------- catching up ----------

  /** Events that are still to be sent, and the step from the snapshot to the tail. */
  function Unsent(s: State): int {
    match s.phase
    case Idle => 0
    case Syncing(from, _, left) => |left| + 1 + |s.log| - from
    case Tailing(_, next) => |s.log| - next
  }

  /** An event takes a step to be sent, one to be processed and one to be consumed. */
  function Work(s: State): int {
    3 * Unsent(s) + 2 * |s.incoming| + |s.results|
  }

  /** Every step but a write, and the Get that starts the watch, is work done. */
  lemma {:induction false} WorkGoesDown(rules: Rules, s: State, step: Step)
    requires Enabled(s, step) && !step.Writing? && !step.Get?
    ensures Work(Next(rules, s, step)) < Work(s)
  {
    hide Transform, StoreAt, ParseEvent, ParseKV;
  }

  /** A watch that has started can go on until it has caught up with the store and both queues are empty. */
  lemma {:induction false} CanGoOn(rules: Rules, s: State, loaded: Cache)
    requires Valid(rules, s, loaded) && !s.phase.Idle?
    ensures Work(s) >= 0
    ensures Work(s) == 0 <==> s.phase.Tailing? && s.phase.next == |s.log| && s.incoming == [] && s.results == []
    ensures Work(s) > 0 <==> exists step: Step :: !step.Writing? && Enabled(s, step)
  {
    hide Drained, Sound, PartlyAgrees, Agrees, StoreAt;
    if s.results != [] {
      assert Enabled(s, Consume);
    } else if s.incoming != [] {
      assert Enabled(s, Process);
    } else if s.phase.Syncing? {
      if s.phase.left == [] {
        assert Enabled(s, StartTail);
      } else {
        assert Enabled(s, SendSync);
      }
    } else if s.phase.next < |s.log| {
      assert Enabled(s, SendTail);
    }
  }

  /** A watch can always be started: the keys of the store can be listed. */
  lemma {:induction false} CanStart(s: State) returns (order: seq<Key>)
    requires s.phase.Idle?
    ensures Enabled(s, Get(order))
  {
    order := Listed(StoreAt(s.log, |s.log|).Keys);
  }

  lemma {:induction false} Listed(keys: set<Key>) returns (order: seq<Key>)
    ensures forall k :: k in order <==> k in keys
    ensures forall i, j :: 0 <= i < j < |order| ==> order[i] != order[j]
  {
    if keys == {} {
      order := [];
    } else {
      var k :| k in keys;
      var rest := Listed(keys - {k});
      order := [k] + rest;
    }
  }

  /** Left alone, a watch comes to rest: between two states of a run without writes in between lie no more
      steps than there was work. */
  lemma {:induction false} ComesToRest(
      rules: Rules, states: seq<State>, steps: seq<Step>, loaded: Cache, j: nat, k: nat)
    requires Run(rules, states, steps, loaded) && j <= k <= |steps|
    requires forall i :: j <= i < k ==> !steps[i].Writing? && !steps[i].Get?
    ensures k - j <= Work(states[j]) - Work(states[k])
  {
    hide Enabled, Next, Work;
    if j < k {
      ComesToRest(rules, states, steps, loaded, j, k - 1);
      WorkGoesDown(rules, states[k - 1], steps[k - 1]);
    }
  }

  /** Where only a write could go on, and every value put decodes, the cache that started empty is the
      filtered store. */
  lemma {:induction false} Converges(rules: Rules, states: seq<State>, steps: seq<Step>, k: nat)
    requires rules.decode([]) == None && Run(rules, states, steps, map[]) && k <= |steps|
    requires AllDecode(rules, states[k].log)
    requires forall step: Step :: !step.Writing? ==> !Enabled(states[k], step)
    ensures states[k].cache == Filtered(rules, StoreAt(states[k].log, |states[k].log|))
  {
    hide Enabled, Next, Work, StoreAt, Filtered, AllDecode;
    RunValid(rules, states, steps, map[], k);
    NeverFails(rules, states, steps, map[], k);
    if states[k].phase.Idle? {
      var order := CanStart(states[k]);
      assert false;
    }
    CanGoOn(rules, states[k], map[]);
    DrainedCacheIsFiltered(rules, states, steps, k);
  }
}
