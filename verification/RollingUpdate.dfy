/** rollingUpdate (controllers/scheduler/replica.go) over the in-memory table of the host config manager
    (controllers/types/impl/hc.go), for one deploy key. The inner count maps are shared between the table
    and the copies that ListHostConfigs hands out, so a write to either is a write to the table. */
module RollingUpdate {
  import opened ByteStrings
  import opened MapSums

  type Host = string

  type Ver = string

  type Info = map<Ver, int>

  /** None is Go's nil map: it reads as empty and cannot be written. */
  datatype Spec = Spec(info: Option<Info>)

  type Table = map<Host, Spec>

  // ---------- counting ----------

  function Counts(s: Spec): Info {
    if s.info.Some? then s.info.value else map[]
  }

  function ExpOf(info: Info, e: Ver): int {
    if e in info then info[e] else 0
  }

  ghost function LegOf(info: Info, e: Ver): int {
    Sum(info - {e})
  }

  ghost function ExpMap(t: Table, e: Ver): map<Host, int> {
    map h | h in t :: ExpOf(Counts(t[h]), e)
  }

  ghost function LegMap(t: Table, e: Ver): map<Host, int> {
    map h | h in t :: LegOf(Counts(t[h]), e)
  }

  /** Instances of the expected version, and of all other versions. */
  ghost function Exp(t: Table, e: Ver): int {
    Sum(ExpMap(t, e))
  }

  ghost function Leg(t: Table, e: Ver): int {
    Sum(LegMap(t, e))
  }

  predicate HasLegacy(info: Info, e: Ver) {
    info - {e} != map[]
  }

  function LegacyHosts(t: Table, e: Ver): set<Host> {
    set h | h in t && HasLegacy(Counts(t[h]), e)
  }

  /** A count that is kept is at least one. */
  ghost predicate Positive(t: Table) {
    forall h, v :: h in t && v in Counts(t[h]) ==> Counts(t[h])[v] >= 1
  }

  lemma {:induction false} SetHost(t: Table, h: Host, s: Spec, e: Ver)
    ensures Exp(t[h := s], e) ==
            Exp(t, e) - (if h in t then ExpOf(Counts(t[h]), e) else 0) + ExpOf(Counts(s), e)
    ensures Leg(t[h := s], e) ==
            Leg(t, e) - (if h in t then LegOf(Counts(t[h]), e) else 0) + LegOf(Counts(s), e)
  {
    hide ExpOf, LegOf;
    assert ExpMap(t[h := s], e) == ExpMap(t, e)[h := ExpOf(Counts(s), e)];
    assert LegMap(t[h := s], e) == LegMap(t, e)[h := LegOf(Counts(s), e)];
    SumUpdate(ExpMap(t, e), h, ExpOf(Counts(s), e));
    SumUpdate(LegMap(t, e), h, LegOf(Counts(s), e));
  }

  lemma {:induction false} DropHost(t: Table, h: Host, e: Ver)
    requires h in t
    ensures Exp(t - {h}, e) == Exp(t, e) - ExpOf(Counts(t[h]), e)
    ensures Leg(t - {h}, e) == Leg(t, e) - LegOf(Counts(t[h]), e)
  {
    hide ExpOf, LegOf;
    assert ExpMap(t - {h}, e) == ExpMap(t, e) - {h};
    assert LegMap(t - {h}, e) == LegMap(t, e) - {h};
    SumRemove(ExpMap(t, e), h);
    SumRemove(LegMap(t, e), h);
  }

  lemma {:induction false} DropVersion(info: Info, v: Ver, e: Ver)
    requires v in info
    ensures ExpOf(info - {v}, e) == ExpOf(info, e) - (if v == e then info[v] else 0)
    ensures LegOf(info - {v}, e) == LegOf(info, e) - (if v == e then 0 else info[v])
  {
    assert info - {v} - {e} == info - {e} - {v};
    if v == e {
      assert info - {e} - {v} == info - {e};
    } else {
      SumRemove(info - {e}, v);
    }
  }

  lemma {:induction false} LegBounds(info: Info, e: Ver)
    requires forall v :: v in info ==> info[v] >= 1
    ensures LegOf(info, e) >= 0 && (HasLegacy(info, e) <==> LegOf(info, e) >= 1)
  {
    SumAtLeast(info - {e});
    if HasLegacy(info, e) {
      assert (info - {e}).Keys != {};
      var v :| v in info - {e};
      SumWithout(info - {e}, v);
      SumAtLeast(info - {e} - {v});
    }
  }

  /** hcStat. */
  method HcStat(t: Table, e: Ver) returns (numExp: int, numUnExp: int)
    ensures numExp == Exp(t, e) && numUnExp == Leg(t, e)
  {
    hide ExpOf, LegOf, Exp, Leg;
    numExp, numUnExp := 0, 0;
    var rest := t;
    assert Exp(map[], e) == 0 == Leg(map[], e) by { EmptyTable(e); }
    while rest != map[]
      invariant numExp + Exp(rest, e) == Exp(t, e) && numUnExp + Leg(rest, e) == Leg(t, e)
      decreases rest.Keys
    {
      assert rest.Keys != {};
      var h :| h in rest;
      DropHost(rest, h, e);
      var a, b := HostStat(Counts(rest[h]), e);
      numExp, numUnExp := numExp + a, numUnExp + b;
      rest := rest - {h};
    }
  }

  lemma {:induction false} EmptyTable(e: Ver)
    ensures Exp(map[], e) == 0 == Leg(map[], e)
  {
  }

  /** The inner loop of hcStat. */
  method HostStat(info: Info, e: Ver) returns (numExp: int, numUnExp: int)
    ensures numExp == ExpOf(info, e) && numUnExp == LegOf(info, e)
  {
    numExp, numUnExp := 0, 0;
    var rest := info;
    while rest != map[]
      invariant numExp + ExpOf(rest, e) == ExpOf(info, e) && numUnExp + LegOf(rest, e) == LegOf(info, e)
      decreases rest.Keys
    {
      assert rest.Keys != {};
      var ver :| ver in rest;
      DropVersion(rest, ver, e);
      if ver == e {
        numExp := numExp + rest[ver];
      } else {
        numUnExp := numUnExp + rest[ver];
      }
      rest := rest - {ver};
    }
    assert rest - {e} == rest;
  }

  // ---------- moving one instance ----------

  /** A legacy instance of version `ver` becomes one of version e. */
  function Moved(info: Info, e: Ver, ver: Ver): Info
    requires ver in info && ver != e
  {
    var up := info[e := ExpOf(info, e) + 1];
    if info[ver] == 1 then up - {ver} else up[ver := info[ver] - 1]
  }

  lemma {:induction false} MovedCounts(info: Info, e: Ver, ver: Ver)
    requires ver in info && ver != e && forall v :: v in info ==> info[v] >= 1
    ensures
      var m := Moved(info, e, ver);
      && ExpOf(m, e) == ExpOf(info, e) + 1 && LegOf(m, e) == LegOf(info, e) - 1
      && forall v :: v in m ==> m[v] >= 1
  {
    var m := Moved(info, e, ver);
    if info[ver] == 1 {
      assert m - {e} == info - {e} - {ver};
      SumRemove(info - {e}, ver);
    } else {
      assert m - {e} == (info - {e})[ver := info[ver] - 1];
      SumUpdate(info - {e}, ver, info[ver] - 1);
    }
  }

  /** Each host is as it was, or one of its legacy instances has become an expected one. */
  ghost predicate Shifted(t: Table, u: Table, e: Ver) {
    && u.Keys == t.Keys
    && forall h :: h in t ==>
         || u[h] == t[h]
         || (ExpOf(Counts(u[h]), e) == ExpOf(Counts(t[h]), e) + 1 && LegOf(Counts(u[h]), e) == LegOf(Counts(t[h]), e) - 1)
  }

  // ---------- removing the legacy instances ----------

  /** Only the expected version is left, on the hosts that have it. */
  function Stripped(t: Table, e: Ver): Table {
    map h | h in t && e in Counts(t[h]) :: Spec(Some(map[e := Counts(t[h])[e]]))
  }

  lemma {:induction false} StrippedLegacy(t: Table, e: Ver)
    ensures Leg(Stripped(t, e), e) == 0
  {
    var u := Stripped(t, e);
    forall h | h in u
      ensures LegMap(u, e)[h] == 0
    {
      assert Counts(u[h]) - {e} == map[];
    }
    SumZero(LegMap(u, e));
  }

  lemma {:induction false} StrippedExpected(t: Table, e: Ver)
    ensures Exp(Stripped(t, e), e) == Exp(t, e)
    decreases t.Keys
  {
    hide Exp, Leg, LegOf;
    var u := Stripped(t, e);
    if t == map[] {
      assert u == t;
    } else {
      assert t.Keys != {};
      var h :| h in t;
      StrippedExpected(t - {h}, e);
      DropHost(t, h, e);
      assert Stripped(t - {h}, e) == u - {h};
      if h in u {
        DropHost(u, h, e);
      } else {
        assert u - {h} == u;
      }
    }
  }

  // ---------- the controller ----------

  /** How a call ends: well, with an error, or in a panic. */
  datatype Outcome = Fine | Failed | Panicked

  /** `now` is `was` with more entries, none of them below the bound. */
  ghost predicate StaysAbove(was: seq<int>, now: seq<int>, bound: int) {
    was <= now && forall i :: |was| <= i < |now| ==> now[i] >= bound
  }

  lemma {:induction false} BoundStart(now: seq<int>, bound: int)
    ensures StaysAbove(now, now, bound)
  {
  }

  lemma {:induction false} BoundMore(was: seq<int>, mid: seq<int>, now: seq<int>, low: int, bound: int)
    requires StaysAbove(was, mid, low) && StaysAbove(mid, now, bound) && bound >= low
    ensures StaysAbove(was, now, low)
  {
  }

  /** There are as many hosts with a legacy instance as legacy instances that will have to move. */
  ghost predicate EnoughHosts(t: Table, e: Ver, target: int) {
    Least(target - Exp(t, e), Leg(t, e)) <= |LegacyHosts(t, e)|
  }

  /** The legacy instances that would have to move and share their host with one that does. */
  ghost function Missed(t: Table, e: Ver, target: int): int {
    var moving := Least(target - Exp(t, e), Leg(t, e));
    moving - Least(moving, |LegacyHosts(t, e)|)
  }

  lemma {:induction false} BoundSnoc(was: seq<int>, now: seq<int>, bound: int)
    requires StaysAbove(was, now, bound)
    ensures StaysAbove(was, now + [bound], bound)
  {
  }

  /** The zero DeploySpec of a host that is not in the table has a nil map. */
  function SpecOf(t: Table, h: Host): Spec {
    if h in t then t[h] else Spec(None)
  }

  // ---------- when addInstances panics ----------

  /** How many hosts NextHost gave. */
  function Drawn(draws: seq<Option<Host>>): nat {
    if draws == [] then 0
    else Drawn(draws[..|draws| - 1]) + if draws[|draws| - 1].Some? then 1 else 0
  }

  /** At tick k a host without a map is drawn, and fewer hosts than wanted before it. */
  predicate PanicsAt(t: Table, num: int, draws: seq<Option<Host>>, k: nat)
    requires k < |draws|
  {
    draws[k].Some? && SpecOf(t, draws[k].value).info.None? && Drawn(draws[..k]) < num
  }

  ghost predicate AddPanics(t: Table, num: int, draws: seq<Option<Host>>) {
    exists k :: 0 <= k < |draws| && PanicsAt(t, num, draws, k)
  }

  /** rollingUpdate adds only what moving the legacy instances will not give. */
  ghost predicate RollPanics(t: Table, e: Ver, target: int, draws: seq<Option<Host>>) {
    target - Exp(t, e) > Leg(t, e) && AddPanics(t, target - Exp(t, e) - Leg(t, e), draws)
  }

  lemma {:induction false} NoneDrawn()
    ensures Drawn([]) == 0
  {
  }

  lemma {:induction false} DrawnNext(draws: seq<Option<Host>>, k: nat)
    requires k < |draws|
    ensures Drawn(draws[..k + 1]) == Drawn(draws[..k]) + if draws[k].Some? then 1 else 0
  {
    assert draws[..k + 1][..k] == draws[..k];
  }

  lemma {:induction false} DrawnMonotone(draws: seq<Option<Host>>, j: nat, k: nat)
    requires j <= k <= |draws|
    ensures Drawn(draws[..j]) <= Drawn(draws[..k])
    decreases k
  {
    if j < k {
      DrawnMonotone(draws, j, k - 1);
      DrawnNext(draws, k - 1);
    }
  }

  lemma {:induction false} EnoughDrawn(t: Table, num: int, draws: seq<Option<Host>>, tick: nat)
    requires tick <= |draws| && Drawn(draws[..tick]) >= num
    requires forall k :: 0 <= k < tick ==> !PanicsAt(t, num, draws, k)
    ensures !AddPanics(t, num, draws)
  {
    forall k | tick <= k < |draws|
      ensures !PanicsAt(t, num, draws, k)
    {
      DrawnMonotone(draws, tick, k);
    }
  }

  /** How often host h was drawn. */
  function Times(draws: seq<Option<Host>>, h: Host): nat {
    if draws == [] then 0
    else Times(draws[..|draws| - 1], h) + if draws[|draws| - 1] == Some(h) then 1 else 0
  }

  lemma {:induction false} TimesNext(draws: seq<Option<Host>>, k: nat, h: Host)
    requires k < |draws|
    ensures Times(draws[..k + 1], h) == Times(draws[..k], h) + if draws[k] == Some(h) then 1 else 0
  {
    assert draws[..k + 1][..k] == draws[..k];
  }

  /** Host h has n more instances of e, and its other versions are as they were. */
  ghost predicate Gained(was: Spec, now: Spec, e: Ver, n: int) {
    && ExpOf(Counts(now), e) == ExpOf(Counts(was), e) + n
    && Counts(now) - {e} == Counts(was) - {e}
    && (now.info.Some? <==> was.info.Some?)
  }

  /** Each host has gained as many instances of e as it was drawn. */
  ghost predicate GainedAsDrawn(t: Table, u: Table, e: Ver, draws: seq<Option<Host>>) {
    u.Keys == t.Keys && forall h :: h in t ==> Gained(t[h], u[h], e, Times(draws, h))
  }

  lemma {:induction false} GainedNothing(t: Table, e: Ver)
    ensures GainedAsDrawn(t, t, e, [])
  {
  }

  lemma {:induction false} GainedMore(t: Table, u: Table, w: Table, e: Ver, draws: seq<Option<Host>>, k: nat)
    requires k < |draws| && GainedAsDrawn(t, u, e, draws[..k])
    requires
      match draws[k]
      case None => w == u
      case Some(h) => h in u && w.Keys == u.Keys && Gained(u[h], w[h], e, 1) && forall g :: g in u && g != h ==> w[g] == u[g]
    ensures GainedAsDrawn(t, w, e, draws[..k + 1])
  {
    hide Counts, ExpOf, Times;
    forall h | h in t
      ensures Gained(t[h], w[h], e, Times(draws[..k + 1], h))
    {
      TimesNext(draws, k, h);
      assert Gained(t[h], u[h], e, Times(draws[..k], h));
    }
  }

  /** The ticks that addInstances uses: until enough hosts have been drawn, a host without a map is, or the
      context ends. */
  ghost predicate UsedTicks(t: Table, num: int, draws: seq<Option<Host>>, used: nat) {
    && used <= |draws|
    && (forall k :: 0 <= k < used ==> Drawn(draws[..k]) < num && !PanicsAt(t, num, draws, k))
    && (used == |draws| || Drawn(draws[..used]) >= num || PanicsAt(t, num, draws, used))
  }

  /** Every tick gives a host with a map until there are enough, and every write succeeds. */
  predicate AddsSmoothly(t: Table, num: int, draws: seq<Option<Host>>, fails: Marks) {
    num <= 0 ||
    (num <= |draws| && !AnyBelow(fails, num)
     && forall k :: 0 <= k < num ==> draws[k].Some? && SpecOf(t, draws[k].value).info.Some?)
  }

  ghost function AddOutcome(t: Table, num: int, draws: seq<Option<Host>>, fails: Marks): Outcome {
    if AddPanics(t, num, draws) then Panicked else if AddsSmoothly(t, num, draws, fails) then Fine else Failed
  }

  /** What addInstances knows after `tick` ticks: no error so far. */
  ghost predicate Smooth(draws: seq<Option<Host>>, tick: nat, fails: Marks)
    requires tick <= |draws|
  {
    (forall k :: 0 <= k < tick ==> draws[k].Some?) && !AnyBelow(fails, Drawn(draws[..tick]))
  }

  lemma {:induction false} SmoothStart(draws: seq<Option<Host>>, fails: Marks)
    ensures Smooth(draws, 0, fails)
  {
  }

  lemma {:induction false} SmoothNext(draws: seq<Option<Host>>, tick: nat, fails: Marks)
    requires tick < |draws|
    ensures Smooth(draws, tick + 1, fails) <==>
            Smooth(draws, tick, fails) && draws[tick].Some? && !fails(Drawn(draws[..tick]))
  {
    DrawnNext(draws, tick);
  }

  lemma {:induction false} AllDrawn(draws: seq<Option<Host>>, tick: nat)
    requires tick <= |draws|
    ensures Drawn(draws[..tick]) <= tick
    ensures Drawn(draws[..tick]) == tick <==> forall k :: 0 <= k < tick ==> draws[k].Some?
  {
    if tick > 0 {
      AllDrawn(draws, tick - 1);
      DrawnNext(draws, tick - 1);
    } else {
      NoneDrawn();
    }
  }

  /** Where addInstances ends without a panic. */
  lemma {:induction false} AddEnds(t: Table, num: int, draws: seq<Option<Host>>, fails: Marks, tick: nat)
    requires tick <= |draws| && (tick == |draws| || Drawn(draws[..tick]) >= num)
    requires Drawn(draws[..tick]) <= num || tick == 0
    requires forall k :: 0 <= k < tick ==> Drawn(draws[..k]) < num && !PanicsAt(t, num, draws, k)
    ensures !AddPanics(t, num, draws)
    ensures AddsSmoothly(t, num, draws, fails) <==> Drawn(draws[..tick]) >= num && Smooth(draws, tick, fails)
  {
    hide Drawn, AnyBelow;
    assert draws[..0] == [];
    NoneDrawn();
    if Drawn(draws[..tick]) >= num {
      EnoughDrawn(t, num, draws, tick);
    }
    if num <= 0 {
      SmoothStart(draws, fails);
    } else {
      AddsInTime(t, num, draws, fails, tick);
    }
  }

  lemma {:induction false} AddsInTime(t: Table, num: nat, draws: seq<Option<Host>>, fails: Marks, tick: nat)
    requires 0 < num && tick <= |draws| && (tick == |draws| || Drawn(draws[..tick]) >= num)
    requires Drawn(draws[..tick]) <= num
    requires forall k :: 0 <= k < tick ==> Drawn(draws[..k]) < num && !PanicsAt(t, num, draws, k)
    ensures AddsSmoothly(t, num, draws, fails) <==> Drawn(draws[..tick]) >= num && Smooth(draws, tick, fails)
  {
    hide Drawn, AnyBelow;
    AllDrawn(draws, tick);
    if AddsSmoothly(t, num, draws, fails) {
      AllDrawn(draws, num);
      assert tick == num;
    } else if Drawn(draws[..tick]) >= num && Smooth(draws, tick, fails) {
      assert tick == num;
      forall k | 0 <= k < num
        ensures draws[k].Some? && SpecOf(t, draws[k].value).info.Some?
      {
        assert !PanicsAt(t, num, draws, k) && Drawn(draws[..k]) < num;
      }
      assert false;
    }
  }

  /** On an empty table, which is every first deployment, rollingUpdate panics as soon as any host is drawn. */
  lemma {:induction false} FirstDeployPanics(e: Ver, target: int, draws: seq<Option<Host>>)
    requires target > 0
    ensures RollPanics(map[], e, target, draws) <==> exists k :: 0 <= k < |draws| && draws[k].Some?
  {
    EmptyTable(e);
    if k :| 0 <= k < |draws| && draws[k].Some? {
      FirstDraw(draws, k, target);
    }
  }

  lemma {:induction false} FirstDraw(draws: seq<Option<Host>>, k: nat, num: int)
    requires k < |draws| && draws[k].Some? && num > 0
    ensures AddPanics(map[], num, draws)
  {
    if j :| 0 <= j < k && draws[j].Some? {
      FirstDraw(draws, j, num);
    } else {
      NothingDrawn(draws, k);
      assert PanicsAt(map[], num, draws, k);
    }
  }

  lemma {:induction false} NothingDrawn(draws: seq<Option<Host>>, k: nat)
    requires k <= |draws| && forall j :: 0 <= j < k ==> draws[j].None?
    ensures Drawn(draws[..k]) == 0
  {
    if k > 0 {
      NothingDrawn(draws, k - 1);
      DrawnNext(draws, k - 1);
    }
  }

  // ---------- which errors updateInstances reports ----------

  /** Which of the moves, by number, something holds of. */
  type Marks = nat -> bool

  predicate AnyBelow(p: Marks, n: nat) {
    n > 0 && (p(n - 1) || AnyBelow(p, n - 1))
  }

  /** How many of n moves are made when the context may end behind any of them. */
  function Moves(n: nat, ends: Marks): nat {
    if n == 0 then 0
    else if AnyBelow(ends, n - 1) then Moves(n - 1, ends)
    else n
  }

  /** When the context ends, that is an error. Otherwise the errors of the writes are reported only if no
      host with a legacy instance is left over; else they are forgotten. */
  function LoopOutcome(most: nat, hosts: nat, fails: Marks, ends: Marks): Outcome {
    var n := Least(most, hosts);
    if AnyBelow(ends, n) then Failed
    else if AnyBelow(fails, n) && hosts <= most then Failed
    else Fine
  }

  ghost function UpdateOutcome(t: Table, e: Ver, num: int, fails: Marks, ends: Marks): Outcome {
    if num <= 0 || Leg(t, e) < 0 then Fine
    else LoopOutcome(Least(num, Leg(t, e)), |LegacyHosts(t, e)|, fails, ends)
  }

  lemma {:induction false} AnyMore(p: Marks, i: nat, n: nat)
    requires i < n && p(i)
    ensures AnyBelow(p, n)
  {
    if i < n - 1 {
      AnyMore(p, i, n - 1);
    }
  }

  lemma {:induction false} MovesAll(n: nat, ends: Marks)
    requires !AnyBelow(ends, n)
    ensures Moves(n, ends) == n
  {
  }

  lemma {:induction false} MovesUpTo(i: nat, n: nat, ends: Marks)
    requires i < n && ends(i) && !AnyBelow(ends, i)
    ensures Moves(n, ends) == i + 1
  {
    if i + 1 < n {
      AnyMore(ends, i, n - 1);
      MovesUpTo(i, n - 1, ends);
    }
  }

  /** The loop has moved n instances, its context has not ended, and it remembers whether a write failed. */
  predicate SoFar(n: nat, outcome: Outcome, fails: Marks, ends: Marks) {
    outcome == (if AnyBelow(fails, n) then Failed else Fine) && !AnyBelow(ends, n)
  }

  /** What the loop returns. */
  predicate Returned(n: nat, outcome: Outcome, most: nat, hosts: nat, fails: Marks, ends: Marks) {
    outcome == LoopOutcome(most, hosts, fails, ends) && n == Moves(Least(most, hosts), ends)
  }

  lemma {:induction false} NothingYet(fails: Marks, ends: Marks)
    ensures SoFar(0, Fine, fails, ends)
  {
  }

  lemma {:induction false} SoFarNext(n: nat, outcome: Outcome, fails: Marks, ends: Marks)
    requires SoFar(n, outcome, fails, ends) && !ends(n)
    ensures SoFar(n + 1, if fails(n) then Failed else outcome, fails, ends)
  {
  }

  lemma {:induction false} ContextEnds(n: nat, outcome: Outcome, most: nat, hosts: nat, fails: Marks, ends: Marks)
    requires SoFar(n, outcome, fails, ends) && n < most && n < hosts && ends(n)
    ensures Returned(n + 1, Failed, most, hosts, fails, ends)
  {
    AnyMore(ends, n, Least(most, hosts));
    MovesUpTo(n, Least(most, hosts), ends);
  }

  lemma {:induction false} LeavesEarly(n: nat, outcome: Outcome, most: nat, hosts: nat, fails: Marks, ends: Marks)
    requires SoFar(n, outcome, fails, ends) && n == most < hosts
    ensures Returned(n, Fine, most, hosts, fails, ends)
  {
    MovesAll(n, ends);
  }

  lemma {:induction false} RunsOut(n: nat, outcome: Outcome, most: nat, hosts: nat, fails: Marks, ends: Marks)
    requires SoFar(n, outcome, fails, ends) && n == hosts <= most
    ensures Returned(n, outcome, most, hosts, fails, ends)
  {
    MovesAll(n, ends);
  }

  /** Two hosts with a legacy instance each, one of which is to move: the write fails and the call reports
      no error. */
  lemma {:induction false} ForgottenFailure(t: Table, e: Ver, past: Ver)
    requires e != past && t == map["a" := Spec(Some(map[past := 1])), "b" := Spec(Some(map[past := 1]))]
    ensures Positive(t) && Leg(t, e) == 2
    ensures UpdateOutcome(t, e, 1, _ => true, _ => false) == Fine
  {
    hide Exp, Leg, LegOf, AnyBelow;
    var info: Info := map[past := 1];
    OneInstance(e, past, info);
    assert Counts(t["a"]) == info && Counts(t["b"]) == info;
    DropHost(t, "a", e);
    DropHost(t - {"a"}, "b", e);
    assert t - {"a"} - {"b"} == map[];
    EmptyTable(e);
    assert LegacyHosts(t, e) == {"a", "b"};
    NeverBelow(1);
  }

  lemma {:induction false} OneInstance(e: Ver, past: Ver, info: Info)
    requires e != past && info == map[past := 1]
    ensures LegOf(info, e) == 1 && HasLegacy(info, e)
  {
    assert info - {e} == info && info - {past} == map[];
    SumWithout(info, past);
  }

  lemma {:induction false} NeverBelow(n: nat)
    ensures !AnyBelow(_ => false, n)
  {
    if n > 0 {
      NeverBelow(n - 1);
    }
  }

  // ---------- which errors removeLegacyInstanceConfigs reports ----------

  type HostMarks = Host -> bool

  /** An entry is written unless it holds the expected version and nothing else. */
  predicate IsWritten(info: Info, e: Ver) {
    e !in info || HasLegacy(info, e)
  }

  ghost predicate FailsOutside(t: Table, left: set<Host>, e: Ver, fails: HostMarks) {
    exists h :: h in t && h !in left && IsWritten(Counts(t[h]), e) && fails(h)
  }

  ghost predicate RemovalFails(t: Table, e: Ver, fails: HostMarks) {
    exists h :: h in t && IsWritten(Counts(t[h]), e) && fails(h)
  }

  lemma {:induction false} FailsMore(t: Table, left: set<Host>, e: Ver, fails: HostMarks, h: Host)
    requires h in left && h in t
    ensures FailsOutside(t, left - {h}, e, fails) <==>
            FailsOutside(t, left, e, fails) || (IsWritten(Counts(t[h]), e) && fails(h))
  {
    hide IsWritten, Counts;
    if FailsOutside(t, left, e, fails) {
      var g :| g in t && g !in left && IsWritten(Counts(t[g]), e) && fails(g);
      assert g !in left - {h};
    }
  }

  lemma {:induction false} NothingRemoved(t: Table, e: Ver, fails: HostMarks)
    ensures !FailsOutside(t, t.Keys, e, fails)
  {
  }

  lemma {:induction false} AllRemoved(t: Table, e: Ver, fails: HostMarks)
    ensures FailsOutside(t, {}, e, fails) <==> RemovalFails(t, e, fails)
  {
    hide IsWritten, Counts;
    if RemovalFails(t, e, fails) {
      var h :| h in t && IsWritten(Counts(t[h]), e) && fails(h);
      assert h !in {};
    }
  }

  // ---------- what rollingUpdate reports ----------

  /** How the adding and the moving end, before the legacy instances that are left are removed. */
  ghost function RollOutcome(
      t: Table, e: Ver, target: int, draws: seq<Option<Host>>, addFails: Marks, fails: Marks, ends: Marks): Outcome
  {
    var num, legacy := target - Exp(t, e), Leg(t, e);
    var added := if num > legacy then AddOutcome(t, num - legacy, draws, addFails) else Fine;
    if !added.Fine? then added else UpdateOutcome(t, e, Least(num, legacy), fails, ends)
  }

  class ReplicaCtrl {
    const e: Ver
    const target: int
    var cfgs: Table
    /** The total number of instances after every change. */
    ghost var totals: seq<int>

    constructor (e: Ver, target: int, cfgs: Table)
      ensures this.e == e && this.target == target && this.cfgs == cfgs && totals == []
    {
      this.e, this.target, this.cfgs := e, target, cfgs;
      totals := [];
    }

    ghost function Total(): int
      reads this
    {
      Exp(cfgs, e) + Leg(cfgs, e)
    }

    /** Writing to the store behind the table may fail; the table has changed by then. */
    method SetHostConfig(h: Host, cfg: Spec, fail: bool) returns (ok: bool)
      modifies this
      ensures cfgs == old(cfgs)[h := cfg] && totals == old(totals) + [Total()] && ok == !fail
    {
      cfgs := cfgs[h := cfg];
      totals := totals + [Total()];
      ok := !fail;
    }

    method DeleteHostConfig(h: Host, fail: bool) returns (ok: bool)
      modifies this
      ensures cfgs == old(cfgs) - {h} && totals == old(totals) + [Total()] && ok == !fail
    {
      cfgs := cfgs - {h};
      totals := totals + [Total()];
      ok := !fail;
    }

    function GetHostConfig(h: Host): Spec
      reads this
    {
      SpecOf(cfgs, h)
    }

    /** addOneInstance: writing to a nil map panics. Otherwise host h, and no other, gains an instance. */
    method AddOneInstance(h: Host, fail: bool) returns (outcome: Outcome)
      modifies this
      ensures outcome == if old(GetHostConfig(h)).info.None? then Panicked else if fail then Failed else Fine
      ensures outcome.Panicked? ==> cfgs == old(cfgs) && totals == old(totals)
      ensures !outcome.Panicked? ==>
                && h in cfgs && Gained(old(GetHostConfig(h)), cfgs[h], e, 1)
                && cfgs.Keys == old(cfgs.Keys) && forall g :: g in cfgs && g != h ==> cfgs[g] == old(cfgs)[g]
      ensures !outcome.Panicked? ==>
                && Exp(cfgs, e) == old(Exp(cfgs, e)) + 1 && Leg(cfgs, e) == old(Leg(cfgs, e))
                && LegacyHosts(cfgs, e) == old(LegacyHosts(cfgs, e))
                && totals == old(totals) + [Total()]
      ensures old(Positive(cfgs)) ==> Positive(cfgs)
      ensures forall g :: GetHostConfig(g).info.Some? <==> old(GetHostConfig(g)).info.Some?
    {
      hide Exp, Leg;
      var spec := GetHostConfig(h);
      if spec.info.None? {
        return Panicked;
      }
      var info := spec.info.value;
      var num := if e in info then info[e] else 0;
      var more := Spec(Some(info[e := num + 1]));
      SetHost(cfgs, h, more, e);
      assert Counts(more) - {e} == info - {e};
      var ok := SetHostConfig(h, more, fail);
      outcome := if ok then Fine else Failed;
    }

    /** addInstances. draws are NextHost's answers at the ticks before the context ends, None an error; a
        tick with an error adds nothing and is tried again. fails says of an added instance, by number,
        whether its write fails. Each host gains as many instances as it was drawn at the ticks used. */
    method AddInstances(num: int, draws: seq<Option<Host>>, fails: Marks) returns (outcome: Outcome, ghost used: nat)
      modifies this
      ensures UsedTicks(old(cfgs), num, draws, used) && GainedAsDrawn(old(cfgs), cfgs, e, draws[..used])
      ensures outcome == AddOutcome(old(cfgs), num, draws, fails)
      ensures Leg(cfgs, e) == old(Leg(cfgs, e)) && LegacyHosts(cfgs, e) == old(LegacyHosts(cfgs, e))
      ensures Exp(cfgs, e) == old(Exp(cfgs, e)) + Drawn(draws[..used])
      ensures outcome.Fine? ==> Exp(cfgs, e) == old(Exp(cfgs, e)) + if num > 0 then num else 0
      ensures old(Positive(cfgs)) ==> Positive(cfgs)
      ensures StaysAbove(old(totals), totals, old(Total()))
    {
      hide Exp, Leg, LegacyHosts, Positive, Drawn, Gained, GainedAsDrawn, Smooth, AnyBelow, AddsSmoothly;
      outcome := Fine;
      ghost var t := cfgs;
      var left, tick := num, 0;
      assert draws[..0] == [];
      NoneDrawn();
      GainedNothing(cfgs, e);
      SmoothStart(draws, fails);
      while left > 0
        invariant tick <= |draws| && Leg(cfgs, e) == old(Leg(cfgs, e))
        invariant LegacyHosts(cfgs, e) == old(LegacyHosts(cfgs, e))
        invariant Exp(cfgs, e) == old(Exp(cfgs, e)) + Drawn(draws[..tick])
        invariant left == num - Drawn(draws[..tick]) && (left >= 0 || tick == 0)
        invariant old(Positive(cfgs)) ==> Positive(cfgs)
        invariant forall h :: GetHostConfig(h).info.Some? <==> SpecOf(t, h).info.Some?
        invariant forall k :: 0 <= k < tick ==> Drawn(draws[..k]) < num && !PanicsAt(t, num, draws, k)
        invariant outcome == if Smooth(draws, tick, fails) then Fine else Failed
        invariant GainedAsDrawn(t, cfgs, e, draws[..tick])
        invariant StaysAbove(old(totals), totals, old(Total()))
        decreases |draws| - tick
      {
        if tick == |draws| {
          AddEnds(t, num, draws, fails, tick);
          return Failed, tick;
        }
        var h := draws[tick];
        ghost var before := cfgs;
        DrawnNext(draws, tick);
        SmoothNext(draws, tick, fails);
        if h.None? {
          GainedMore(t, before, cfgs, e, draws, tick);
          tick := tick + 1;
          outcome := Failed;
          continue;
        }
        var added := AddOneInstance(h.value, fails(num - left));
        if added.Panicked? {
          assert PanicsAt(t, num, draws, tick);
          return Panicked, tick;
        }
        if added.Failed? {
          outcome := Failed;
        }
        GainedMore(t, before, cfgs, e, draws, tick);
        tick := tick + 1;
        left := left - 1;
      }
      AddEnds(t, num, draws, fails, tick);
      used := tick;
    }

    /** The body of updateInstances' loop for a host with a legacy instance. */
    method MoveOne(h: Host, ver: Ver, fail: bool) returns (ok: bool)
      requires Positive(cfgs) && h in cfgs && ver in Counts(cfgs[h]) && ver != e
      modifies this
      ensures Positive(cfgs) && cfgs.Keys == old(cfgs.Keys)
      ensures forall g :: g in cfgs && g != h ==> cfgs[g] == old(cfgs[g])
      ensures ExpOf(Counts(cfgs[h]), e) == old(ExpOf(Counts(cfgs[h]), e)) + 1
      ensures LegOf(Counts(cfgs[h]), e) == old(LegOf(Counts(cfgs[h]), e)) - 1
      ensures Exp(cfgs, e) == old(Exp(cfgs, e)) + 1 && Leg(cfgs, e) == old(Leg(cfgs, e)) - 1
      ensures totals == old(totals) + [Total()] && ok == !fail
    {
      hide Exp, Leg, LegOf, ExpOf, Moved;
      var info := Counts(cfgs[h]);
      MovedCounts(info, e, ver);
      var cfg := Spec(Some(Moved(info, e, ver)));
      SetHost(cfgs, h, cfg, e);
      ok := SetHostConfig(h, cfg, fail);
    }

    /** The hosts of t that are not left have been visited; n of them had a legacy instance and moved it. */
    ghost predicate Midway(t: Table, left: set<Host>, n: nat)
      reads this
    {
      && left <= t.Keys == cfgs.Keys && Positive(cfgs) && Shifted(t, cfgs, e)
      && (forall h :: h in left ==> cfgs[h] == t[h])
      && n == |LegacyHosts(t, e) - left|
      && Exp(cfgs, e) == Exp(t, e) + n && Leg(cfgs, e) == Leg(t, e) - n
    }

    lemma {:induction false} Begin()
      requires Positive(cfgs)
      ensures Midway(cfgs, cfgs.Keys, 0)
    {
      assert LegacyHosts(cfgs, e) - cfgs.Keys == {};
    }

    lemma {:induction false} MidwayMeans(t: Table, left: set<Host>, n: nat)
      requires Midway(t, left, n)
      ensures left <= t.Keys == cfgs.Keys && Positive(cfgs) && Shifted(t, cfgs, e)
      ensures n == |LegacyHosts(t, e) - left| && forall h :: h in left ==> cfgs[h] == t[h]
      ensures Exp(cfgs, e) == Exp(t, e) + n && Leg(cfgs, e) == Leg(t, e) - n
    {
    }

    lemma {:induction false} PassHost(t: Table, left: set<Host>, n: nat, h: Host)
      requires Midway(t, left, n) && h in left && !HasLegacy(Counts(cfgs[h]), e)
      ensures Midway(t, left - {h}, n)
    {
      LeaveHost(LegacyHosts(t, e), left, h);
    }

    /** One turn of updateInstances' loop on a host with a legacy instance of some version. */
    method MoveHost(ghost t: Table, ghost left: set<Host>, ghost n: nat, h: Host, fail: bool)
      returns (ok: bool)
      requires Midway(t, left, n) && h in left && HasLegacy(Counts(cfgs[h]), e)
      modifies this
      ensures Midway(t, left - {h}, n + 1)
      ensures totals == old(totals) + [old(Total())] && ok == !fail
    {
      hide Exp, Leg, LegOf, ExpOf, Positive, Shifted, LegacyHosts;
      LeaveHost(LegacyHosts(t, e), left, h);
      IsLegacyHost(t, h, e);
      assert (Counts(cfgs[h]) - {e}).Keys != {};
      var ver :| ver in Counts(cfgs[h]) && ver != e;
      ghost var before := cfgs;
      ok := MoveOne(h, ver, fail);
      ShiftedStep(t, before, cfgs, h, e);
    }

    /** The body of updateInstances' loop; done says that the method returns. fails and ends say of the move
        with a given number whether its write fails and whether the context ends in the pause behind it. */
    method Visit(ghost t: Table, ghost left: set<Host>, h: Host, n: nat, outcome: Outcome, most: nat,
        fails: Marks, ends: Marks) returns (next: nat, now: Outcome, done: bool)
      requires Midway(t, left, n) && h in left && n <= most && SoFar(n, outcome, fails, ends)
      modifies this
      ensures next <= most && (done ==> exists rest :: Midway(t, rest, next))
      ensures done ==> Returned(next, now, most, |LegacyHosts(t, e)|, fails, ends)
      ensures !done ==> Midway(t, left - {h}, next) && SoFar(next, now, fails, ends)
      ensures totals == old(totals) || totals == old(totals) + [old(Total())]
    {
      hide Exp, Leg, Positive, Shifted, LegacyHosts, HasLegacy, Midway, Counts, SoFar, Returned;
      MidwayMeans(t, left, n);
      next, now, done := n, outcome, false;
      if !HasLegacy(Counts(cfgs[h]), e) {
        PassHost(t, left, n, h);
        return;
      }
      IsLegacyHost(t, h, e);
      LegacyLeft(LegacyHosts(t, e), left, h);
      if n >= most {
        // An error that was collected before is forgotten here.
        LeavesEarly(n, outcome, most, |LegacyHosts(t, e)|, fails, ends);
        return n, Fine, true;
      }
      var ok := MoveHost(t, left, n, h, fails(n));
      if ends(n) {
        ContextEnds(n, outcome, most, |LegacyHosts(t, e)|, fails, ends);
        return n + 1, Failed, true;
      }
      SoFarNext(n, outcome, fails, ends);
      next := n + 1;
      if !ok {
        now := Failed;
      }
    }

    /** The loop of updateInstances. */
    method MoveUpTo(most: nat, fails: Marks, ends: Marks) returns (n: nat, outcome: Outcome)
      requires Positive(cfgs)
      modifies this
      ensures n <= most && exists left :: Midway(old(cfgs), left, n)
      ensures Returned(n, outcome, most, |old(LegacyHosts(cfgs, e))|, fails, ends)
      ensures StaysAbove(old(totals), totals, old(Total()))
    {
      hide Exp, Leg, Positive, Shifted, LegacyHosts, Midway, StaysAbove, SoFar, Returned;
      Begin();
      BoundStart(totals, Total());
      NothingYet(fails, ends);
      ghost var hc := cfgs;
      n, outcome := 0, Fine;
      var left := cfgs.Keys;
      while left != {}
        invariant n <= most && Midway(hc, left, n) && SoFar(n, outcome, fails, ends)
        invariant StaysAbove(old(totals), totals, old(Total()))
        decreases left
      {
        var h :| h in left;
        MidwayMeans(hc, left, n);
        BoundSnoc(old(totals), totals, old(Total()));
        var done;
        n, outcome, done := Visit(hc, left, h, n, outcome, most, fails, ends);
        if done {
          return;
        }
        left := left - {h};
      }
      MidwayMeans(hc, left, n);
      assert LegacyHosts(hc, e) - {} == LegacyHosts(hc, e);
      RunsOut(n, outcome, most, |LegacyHosts(hc, e)|, fails, ends);
    }

    /** updateInstances. One legacy instance moves per host and call; the count it returns is what moved. */
    method UpdateInstances(num: int, fails: Marks, ends: Marks) returns (n: int, outcome: Outcome)
      requires Positive(cfgs)
      modifies this
      ensures Positive(cfgs) && Shifted(old(cfgs), cfgs, e)
      ensures Exp(cfgs, e) == old(Exp(cfgs, e)) + n && Leg(cfgs, e) == old(Leg(cfgs, e)) - n
      ensures 0 <= n && (num > 0 ==> n <= num) && (num <= 0 ==> n == 0)
      ensures outcome == UpdateOutcome(old(cfgs), e, num, fails, ends)
      ensures outcome.Fine? && num > 0 ==>
                n == Least(Least(num, old(Leg(cfgs, e))), |old(LegacyHosts(cfgs, e))|)
      ensures StaysAbove(old(totals), totals, old(Total()))
    {
      hide Exp, Leg, Positive, Shifted, LegacyHosts, Midway, AnyBelow, Moves;
      BoundStart(totals, Total());
      if num <= 0 {
        ShiftedSame(cfgs, e);
        return 0, Fine;
      }
      ghost var before := cfgs;
      var _, numUnexp := HcStat(cfgs, e);
      var most := if num > numUnexp then numUnexp else num;
      LegNonNegative(cfgs, e);
      n, outcome := MoveUpTo(most, fails, ends);
      ghost var left :| Midway(before, left, n);
      MidwayMeans(before, left, n);
      ghost var all := Least(most, |LegacyHosts(before, e)|);
      if !AnyBelow(ends, all) {
        MovesAll(all, ends);
      }
    }

    /** One turn of removeLegacyInstanceConfigs' loop; fail says that a write to this host's entry fails. */
    method StripHost(h: Host, fail: bool) returns (ok: bool)
      requires Positive(cfgs) && h in cfgs
      modifies this
      ensures Positive(cfgs) && (ok <==> !(fail && IsWritten(old(Counts(cfgs[h])), e)))
      ensures h in cfgs <==> e in old(Counts(cfgs[h]))
      ensures h in cfgs ==> cfgs[h] == Spec(Some(map[e := old(Counts(cfgs[h])[e])]))
      ensures forall g :: g != h ==>
                (g in cfgs <==> g in old(cfgs)) && (g in cfgs ==> cfgs[g] == old(cfgs)[g])
      ensures Exp(cfgs, e) == old(Exp(cfgs, e))
      ensures StaysAbove(old(totals), totals, Exp(cfgs, e))
    {
      hide Exp, Leg, LegOf;
      var info := Counts(cfgs[h]);
      var needUpdate, kept := Strip(info, e);
      ok := true;
      assert e in info ==> e in kept;
      if kept == map[] {
        DropHost(cfgs, h, e);
        LegNonNegative(cfgs - {h}, e);
        ok := DeleteHostConfig(h, fail);
      } else {
        SetHost(cfgs, h, Spec(Some(kept)), e);
        LegNonNegative(cfgs[h := Spec(Some(kept))], e);
        if needUpdate {
          ok := SetHostConfig(h, Spec(Some(kept)), fail);
        }
      }
    }

    /** removeLegacyInstanceConfigs: an error if and only if a write that is made fails. */
    method RemoveLegacy(fails: HostMarks) returns (outcome: Outcome)
      requires Positive(cfgs)
      modifies this
      ensures cfgs == Stripped(old(cfgs), e)
      ensures outcome == if RemovalFails(old(cfgs), e, fails) then Failed else Fine
      ensures Exp(cfgs, e) == old(Exp(cfgs, e)) && Leg(cfgs, e) == 0
      ensures StaysAbove(old(totals), totals, old(Exp(cfgs, e)))
    {
      hide Exp, Leg, Positive, IsWritten, FailsOutside, StaysAbove;
      outcome := Fine;
      var hc := cfgs;
      var left := hc.Keys;
      NothingRemoved(hc, e, fails);
      BoundStart(totals, Exp(hc, e));
      while left != {}
        invariant left <= hc.Keys && Positive(cfgs)
        invariant outcome == if FailsOutside(hc, left, e, fails) then Failed else Fine
        invariant forall h :: h in cfgs <==> h in left || (h in hc && e in Counts(hc[h]))
        invariant forall h :: h in cfgs ==> cfgs[h] == if h in left then hc[h] else Stripped(hc, e)[h]
        invariant Exp(cfgs, e) == Exp(hc, e) && StaysAbove(old(totals), totals, Exp(cfgs, e))
        decreases left
      {
        var h :| h in left;
        FailsMore(hc, left, e, fails, h);
        ghost var between := totals;
        var ok := StripHost(h, fails(h));
        BoundMore(old(totals), between, totals, Exp(hc, e), Exp(hc, e));
        if !ok {
          outcome := Failed;
        }
        left := left - {h};
      }
      StrippedLegacy(hc, e);
      AllRemoved(hc, e, fails);
    }

    /** rollingUpdate, for no more expected instances than are wanted. If adding and moving go well, no legacy
        instance is left, whether or not the removal reports an error, and the wanted number of expected ones
        is reached if and only if there were at least as many hosts with a legacy instance as legacy instances
        to be moved. In that case the total never falls below the wanted or the initial number on the way,
        whatever goes wrong. */
    method Roll(draws: seq<Option<Host>>, addFails: Marks, fails: Marks, ends: Marks, removeFails: HostMarks)
      returns (outcome: Outcome)
      requires Positive(cfgs) && Exp(cfgs, e) <= target
      modifies this
      ensures
        var before := RollOutcome(old(cfgs), e, target, draws, addFails, fails, ends);
        && (!before.Fine? ==> outcome == before)
        && (before.Fine? ==> !outcome.Panicked? && (outcome.Failed? ==> exists h :: removeFails(h)))
        && (before.Fine? ==> Leg(cfgs, e) == 0)
        && (before.Fine? ==> (Exp(cfgs, e) == target <==> old(EnoughHosts(cfgs, e, target))))
        && (before.Fine? ==> Exp(cfgs, e) == target - old(Missed(cfgs, e, target)))
      ensures outcome.Fine? ==> RollOutcome(old(cfgs), e, target, draws, addFails, fails, ends).Fine?
      ensures old(EnoughHosts(cfgs, e, target)) ==> StaysAbove(old(totals), totals, Least(target, old(Total())))
      ensures outcome.Panicked? <==> RollPanics(old(cfgs), e, target, draws)
    {
      hide AddPanics, AddsSmoothly, UpdateOutcome, Exp, Leg, Positive, LegacyHosts, Shifted, Stripped, StaysAbove;
      ghost var t, was, low := cfgs, totals, Least(target, Total());
      BoundStart(totals, low);
      LegNonNegative(cfgs, e);
      var numExp, numUnexp := HcStat(cfgs, e);
      var numUpdate := target - numExp;
      if numUpdate == 0 {
        NothingToMove(t, e, fails, ends);
        outcome := RemoveLegacy(removeFails);
        BoundMore(was, was, totals, low, Exp(t, e));
        return;
      }
      if numUpdate > numUnexp {
        var added, used := AddInstances(numUpdate - numUnexp, draws, addFails);
        BoundMore(was, was, totals, low, numExp + numUnexp);
        if !added.Fine? {
          return added;
        }
        numUpdate := numUnexp;
      }
      ghost var mid, half, u := totals, Total(), cfgs;
      SameUpdate(t, u, e, numUpdate, fails, ends);
      var n, updated := UpdateInstances(numUpdate, fails, ends);
      BoundMore(was, mid, totals, low, half);
      if !updated.Fine? {
        return Failed;
      }
      ghost var end, reached := totals, Exp(cfgs, e);
      outcome := RemoveLegacy(removeFails);
      if reached >= low {
        BoundMore(was, end, totals, low, reached);
      }
    }
  }

  /** The inner loop of removeLegacyInstanceConfigs. */
  method Strip(info: Info, e: Ver) returns (needUpdate: bool, kept: Info)
    ensures kept == if e in info then map[e := info[e]] else map[]
    ensures needUpdate <==> HasLegacy(info, e)
    ensures !needUpdate ==> kept == info
  {
    needUpdate, kept := false, info;
    var left := info.Keys;
    while left != {}
      invariant left <= info.Keys && kept.Keys == left + (info.Keys * {e})
      invariant forall v :: v in kept ==> kept[v] == info[v]
      invariant needUpdate <==> exists v :: v in info && v !in left && v != e
      invariant !needUpdate ==> kept == info
      decreases left
    {
      var v :| v in left;
      if v != e {
        kept := kept - {v};
        needUpdate := true;
      }
      left := left - {v};
    }
    LegacyMeans(info, e);
  }

  lemma {:induction false} LegacyMeans(info: Info, e: Ver)
    ensures HasLegacy(info, e) <==> exists v :: v in info && v != e
  {
    assert (exists v :: v in info && v != e) ==> HasLegacy(info, e) by {
      if v :| v in info && v != e {
        assert v in info - {e};
      }
    }
    if HasLegacy(info, e) {
      assert (info - {e}).Keys != {};
      var v :| v in (info - {e}).Keys;
      assert v in info && v != e;
    }
  }

  lemma {:induction false} ShiftedSame(t: Table, e: Ver)
    ensures Shifted(t, t, e)
  {
  }

  lemma {:induction false} ShiftedStep(t: Table, u: Table, w: Table, h: Host, e: Ver)
    requires Shifted(t, u, e) && h in t && u[h] == t[h] && w.Keys == u.Keys
    requires forall g :: g in w && g != h ==> w[g] == u[g]
    requires ExpOf(Counts(w[h]), e) == ExpOf(Counts(u[h]), e) + 1
    requires LegOf(Counts(w[h]), e) == LegOf(Counts(u[h]), e) - 1
    ensures Shifted(t, w, e)
  {
  }

  lemma {:induction false} IsLegacyHost(t: Table, h: Host, e: Ver)
    requires h in t
    ensures h in LegacyHosts(t, e) <==> HasLegacy(Counts(t[h]), e)
  {
  }

  lemma {:induction false} LegNonNegative(t: Table, e: Ver)
    requires Positive(t)
    ensures Leg(t, e) >= 0
  {
    forall h | h in t
      ensures LegMap(t, e)[h] >= 0
    {
      LegBounds(Counts(t[h]), e);
    }
    SumAtLeast(LegMap(t, e));
  }

  lemma {:induction false} LeaveHost(all: set<Host>, left: set<Host>, h: Host)
    requires h in left
    ensures |all - (left - {h})| == |all - left| + if h in all then 1 else 0
  {
    if h in all {
      assert all - (left - {h}) == (all - left) + {h};
    } else {
      assert all - (left - {h}) == all - left;
    }
  }

  lemma {:induction false} LegacyLeft(all: set<Host>, left: set<Host>, h: Host)
    requires h in left && h in all
    ensures |all - left| < |all|
  {
    assert all - left <= all - {h};
    assert |all - {h}| == |all| - 1;
    SubsetSize(all - left, all - {h});
  }

  lemma {:induction false} SubsetSize<T>(a: set<T>, b: set<T>)
    requires a <= b
    ensures |a| <= |b|
  {
    assert |b| == |a| + |b - a| by { assert b == a + (b - a); }
  }

  lemma {:induction false} NothingToMove(t: Table, e: Ver, fails: Marks, ends: Marks)
    ensures UpdateOutcome(t, e, 0, fails, ends).Fine?
  {
  }

  /** What updateInstances reports depends on the table only by the legacy instances and their hosts. */
  lemma {:induction false} SameUpdate(t: Table, u: Table, e: Ver, num: int, fails: Marks, ends: Marks)
    requires Leg(t, e) == Leg(u, e) && LegacyHosts(t, e) == LegacyHosts(u, e)
    ensures UpdateOutcome(t, e, num, fails, ends) == UpdateOutcome(u, e, num, fails, ends)
    ensures UpdateOutcome(t, e, num, fails, ends) != Panicked
  {
    hide Leg, LegacyHosts;
  }

  /** At most one legacy instance per host is enough. */
  lemma {:induction false} OnePerHost(t: Table, e: Ver, target: int)
    requires Positive(t) && forall h :: h in t ==> LegOf(Counts(t[h]), e) <= 1
    ensures Leg(t, e) == |LegacyHosts(t, e)| && EnoughHosts(t, e, target)
    decreases t.Keys
  {
    hide Exp, Leg, LegOf, HasLegacy;
    if t == map[] {
      EmptyTable(e);
    } else {
      assert t.Keys != {};
      var h :| h in t;
      OnePerHost(t - {h}, e, target);
      DropHost(t, h, e);
      LegBounds(Counts(t[h]), e);
      if HasLegacy(Counts(t[h]), e) {
        assert LegacyHosts(t, e) == LegacyHosts(t - {h}, e) + {h};
      } else {
        assert LegacyHosts(t, e) == LegacyHosts(t - {h}, e);
      }
    }
  }

  /** Two legacy instances on one host are one too many: one of them moves, the other is removed. */
  lemma {:induction false} TwoOnOneHost(t: Table, e: Ver, past: Ver)
    requires e != past && t == map["host" := Spec(Some(map[past := 2]))]
    ensures Positive(t) && Exp(t, e) == 0 && Leg(t, e) == 2 && !EnoughHosts(t, e, 2)
  {
    hide Exp, Leg;
    assert t == map["host" := t["host"]];
    assert t - {"host"} == map[];
    DropHost(t, "host", e);
    EmptyTable(e);
    var info: Info := map[past := 2];
    assert info - {e} == info && info - {past} == map[];
    SumWithout(info, past);
    assert LegacyHosts(t, e) == {"host"};
  }
}
