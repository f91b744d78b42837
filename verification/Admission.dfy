/** Host admission: saturating subtraction and division of resources (types/resource.go) and the random
    choice among the hosts that are left (controllers/scheduler/scheduler.go). */
module Admission {
  import opened ByteStrings

  const TWO_64 := 0x1_0000_0000_0000_0000

  type uint64 = n: nat | n < TWO_64

  datatype Amounts = Amounts(memory: uint64, cpu: uint64, networkIn: uint64, networkOut: uint64, diskSpace: uint64)

  // ---------- the arithmetic ----------

  function Saturate(a: uint64, b: uint64): uint64 {
    if a > b then a - b else 0
  }

  function Minus(a: Amounts, b: Amounts): Amounts {
    Amounts(Saturate(a.memory, b.memory), Saturate(a.cpu, b.cpu), Saturate(a.networkIn, b.networkIn),
            Saturate(a.networkOut, b.networkOut), Saturate(a.diskSpace, b.diskSpace))
  }

  /** Go's int64(n). */
  function Int64(n: uint64): int {
    if n <= MAX_INT64 then n else n - TWO_64
  }

  class DeployResource {
    var memory: uint64
    var cpu: uint64
    var networkIn: uint64
    var networkOut: uint64
    var diskSpace: uint64

    function Value(): Amounts
      reads this
    {
      Amounts(memory, cpu, networkIn, networkOut, diskSpace)
    }

    constructor (a: Amounts)
      ensures Value() == a
    {
      memory, cpu, networkIn, networkOut, diskSpace := a.memory, a.cpu, a.networkIn, a.networkOut, a.diskSpace;
    }

    method Subtract(operand: Amounts)
      modifies this
      ensures Value() == Minus(old(Value()), operand)
    {
      if memory > operand.memory {
        memory := memory - operand.memory;
      } else {
        memory := 0;
      }
      if cpu > operand.cpu {
        cpu := cpu - operand.cpu;
      } else {
        cpu := 0;
      }
      if networkIn > operand.networkIn {
        networkIn := networkIn - operand.networkIn;
      } else {
        networkIn := 0;
      }
      if networkOut > operand.networkOut {
        networkOut := networkOut - operand.networkOut;
      } else {
        networkOut := 0;
      }
      if diskSpace > operand.diskSpace {
        diskSpace := diskSpace - operand.diskSpace;
      } else {
        diskSpace := 0;
      }
    }

    /** Devide: how often the operand fits, and never more often than the operand asks for units of memory. */
    method Devide(operand: Amounts) returns (k: int)
      ensures k == Share(Value(), operand)
    {
      var min := operand.memory;
      min := Limit(memory, operand.memory, min);
      min := Limit(cpu, operand.cpu, min);
      min := Limit(diskSpace, operand.diskSpace, min);
      min := Limit(networkIn, operand.networkIn, min);
      min := Limit(networkOut, operand.networkOut, min);
      return Int64(min);
    }

    /** One of Devide's five steps. */
    static method Limit(have: uint64, need: uint64, most: uint64) returns (min: uint64)
      ensures min == Limited(have, need, most)
    {
      min := most;
      if need != 0 {
        var t := have / need;
        if t < min {
          min := t;
        }
      }
    }
  }

  function Limited(have: uint64, need: uint64, most: uint64): (min: uint64)
    ensures min <= most
  {
    if need != 0 && have / need < most then have / need else most
  }

  function Smallest(free: Amounts, need: Amounts): uint64 {
    Limited(free.networkOut, need.networkOut,
      Limited(free.networkIn, need.networkIn,
        Limited(free.diskSpace, need.diskSpace,
          Limited(free.cpu, need.cpu,
            Limited(free.memory, need.memory, need.memory)))))
  }

  function Share(free: Amounts, need: Amounts): int {
    Int64(Smallest(free, need))
  }

  /** k times the need is there. */
  predicate Times(k: nat, free: uint64, need: uint64) {
    k * need <= free
  }

  predicate TimesAll(k: nat, free: Amounts, need: Amounts) {
    && Times(k, free.memory, need.memory) && Times(k, free.cpu, need.cpu) && Times(k, free.networkIn, need.networkIn)
    && Times(k, free.networkOut, need.networkOut) && Times(k, free.diskSpace, need.diskSpace)
  }

  lemma {:induction false} LimitedTimes(have: uint64, need: uint64, most: uint64, k: nat)
    requires k <= Limited(have, need, most)
    ensures Times(k, have, need)
  {
    if need != 0 {
      var q := have / need;
      assert q * need <= have;
      MultiplyLeq(k, q, need);
    } else {
      assert k * need == 0;
    }
  }

  lemma {:induction false} MultiplyLeq(a: nat, b: nat, c: nat)
    requires a <= b
    ensures a * c <= b * c
  {
  }

  /** The quotient never wraps around to a negative number, and that many units are really free. */
  lemma {:induction false} ShareFits(free: Amounts, need: Amounts)
    ensures 0 <= Share(free, need) <= need.memory && TimesAll(Share(free, need), free, need)
  {
    hide Limited, Times;
    var a := Limited(free.memory, need.memory, need.memory);
    var b := Limited(free.cpu, need.cpu, a);
    var c := Limited(free.diskSpace, need.diskSpace, b);
    var d := Limited(free.networkIn, need.networkIn, c);
    var k := Limited(free.networkOut, need.networkOut, d);
    LimitedTimes(free.memory, need.memory, need.memory, k);
    LimitedTimes(free.cpu, need.cpu, a, k);
    LimitedTimes(free.diskSpace, need.diskSpace, b, k);
    LimitedTimes(free.networkIn, need.networkIn, c, k);
    LimitedTimes(free.networkOut, need.networkOut, d, k);
    MemoryBound(free.memory, need.memory);
  }

  lemma {:induction false} LimitedExactly(have: uint64, need: uint64, most: uint64, k: nat)
    ensures k <= Limited(have, need, most) <==> k <= most && Times(k, have, need)
  {
    if k <= Limited(have, need, most) {
      LimitedTimes(have, need, most, k);
    } else if need != 0 && k > have / need {
      MultiplyLeq(have / need + 1, k, need);
      assert (have / need + 1) * need == have / need * need + need;
    }
  }

  /** The quotient is the greatest number that is no larger than the memory asked for and that often free. */
  lemma {:induction false} ShareIsGreatest(free: Amounts, need: Amounts, k: nat)
    ensures k <= Share(free, need) <==> k <= need.memory && TimesAll(k, free, need)
  {
    hide Limited, Times;
    var a := Limited(free.memory, need.memory, need.memory);
    var b := Limited(free.cpu, need.cpu, a);
    var c := Limited(free.diskSpace, need.diskSpace, b);
    var d := Limited(free.networkIn, need.networkIn, c);
    MemoryBound(free.memory, need.memory);
    LimitedExactly(free.memory, need.memory, need.memory, k);
    LimitedExactly(free.cpu, need.cpu, a, k);
    LimitedExactly(free.diskSpace, need.diskSpace, b, k);
    LimitedExactly(free.networkIn, need.networkIn, c, k);
    LimitedExactly(free.networkOut, need.networkOut, d, k);
  }

  lemma {:induction false} MemoryBound(have: uint64, need: uint64)
    ensures Limited(have, need, need) <= MAX_INT64
  {
    if need >= 2 {
      var q := have / need;
      MultiplyLeq(2, need, q);
      assert need * q <= have;
    }
  }

  predicate LeastOne(have: uint64, need: uint64) {
    need == 0 || need <= have
  }

  lemma {:induction false} LimitedPositive(have: uint64, need: uint64, most: uint64)
    ensures Limited(have, need, most) >= 1 <==> most >= 1 && LeastOne(have, need)
  {
  }

  lemma {:induction false} SharePositive(free: Amounts, need: Amounts)
    ensures Share(free, need) > 0 <==>
      && need.memory >= 1 && need.memory <= free.memory && LeastOne(free.cpu, need.cpu)
      && LeastOne(free.networkIn, need.networkIn) && LeastOne(free.networkOut, need.networkOut)
      && LeastOne(free.diskSpace, need.diskSpace)
  {
    ShareFits(free, need);
    hide Limited;
    var a := Limited(free.memory, need.memory, need.memory);
    var b := Limited(free.cpu, need.cpu, a);
    var c := Limited(free.diskSpace, need.diskSpace, b);
    var d := Limited(free.networkIn, need.networkIn, c);
    LimitedPositive(free.memory, need.memory, need.memory);
    LimitedPositive(free.cpu, need.cpu, a);
    LimitedPositive(free.diskSpace, need.diskSpace, b);
    LimitedPositive(free.networkIn, need.networkIn, c);
    LimitedPositive(free.networkOut, need.networkOut, d);
  }

  // ---------- checkHostStatus ----------

  /** What is known of a host: its size and reserve, and its use; either may be missing. */
  datatype Status = Status(total: Amounts, reserved: Amounts, used: Option<Amounts>)

  datatype Verdict = Admitted | Unknown | ShortOfResource | AlreadyExists

  /** In one dimension: nothing is asked for, or it is there beside what is reserved and used. */
  predicate Room(total: nat, reserved: nat, used: nat, need: nat) {
    need == 0 || reserved + used + need <= total
  }

  function UsedOf(st: Status): Amounts {
    if st.used.Some? then st.used.value else Amounts(0, 0, 0, 0, 0)
  }

  predicate RoomAll(st: Status, need: Amounts) {
    var (t, r, u) := (st.total, st.reserved, UsedOf(st));
    && Room(t.memory, r.memory, u.memory, need.memory) && Room(t.cpu, r.cpu, u.cpu, need.cpu)
    && Room(t.networkIn, r.networkIn, u.networkIn, need.networkIn)
    && Room(t.networkOut, r.networkOut, u.networkOut, need.networkOut)
    && Room(t.diskSpace, r.diskSpace, u.diskSpace, need.diskSpace)
  }

  lemma {:induction false} SaturateTwice(total: uint64, reserved: uint64, used: uint64, need: uint64)
    ensures LeastOne(Saturate(Saturate(total, reserved), used), need) <==> Room(total, reserved, used, need)
  {
  }

  lemma {:induction false} AdmitsRoom(st: Status, need: Amounts)
    ensures
      var free := Minus(Minus(st.total, st.reserved), UsedOf(st));
      Share(free, need) > 0 <==> need.memory >= 1 && RoomAll(st, need)
  {
    var (t, r, u) := (st.total, st.reserved, UsedOf(st));
    SharePositive(Minus(Minus(t, r), u), need);
    SaturateTwice(t.memory, r.memory, u.memory, need.memory);
    SaturateTwice(t.cpu, r.cpu, u.cpu, need.cpu);
    SaturateTwice(t.networkIn, r.networkIn, u.networkIn, need.networkIn);
    SaturateTwice(t.networkOut, r.networkOut, u.networkOut, need.networkOut);
    SaturateTwice(t.diskSpace, r.diskSpace, u.diskSpace, need.diskSpace);
  }

  lemma {:induction false} MinusNothing(a: Amounts)
    ensures Minus(a, Amounts(0, 0, 0, 0, 0)) == a
  {
  }

  /** checkHostStatus: a host is admitted exactly when it is known, memory is asked for, everything that is
      asked for fits beside what is reserved and used, and no instance runs there yet. */
  method CheckHostStatus(status: Option<Status>, need: Amounts, hid: string, running: seq<string>) returns (v: Verdict)
    ensures v == if status.None? then Unknown
                 else if !(need.memory >= 1 && RoomAll(status.value, need)) then ShortOfResource
                 else if hid in running then AlreadyExists
                 else Admitted
  {
    if status.None? {
      return Unknown;
    }
    var st := status.value;
    var free := new DeployResource(st.total);
    free.Subtract(st.reserved);
    MinusNothing(free.Value());
    if st.used.Some? {
      free.Subtract(st.used.value);
    }
    AdmitsRoom(st, need);
    var sc := free.Devide(need);
    if sc <= 0 {
      return ShortOfResource;
    }
    for i := 0 to |running|
      invariant hid !in running[..i]
    {
      if running[i] == hid {
        return AlreadyExists;
      }
    }
    return Admitted;
  }

  // ---------- choosing a host ----------

  datatype Choice = Host(hid: string) | NoHost

  const MAX_TRY := 50

  /** The list is short enough to be tried out, and there is a host in it that passes. */
  ghost predicate HasAdmitted(hosts: seq<string>, verdict: string -> Verdict) {
    |hosts| <= MAX_TRY && exists h :: h in hosts && verdict(h).Admitted?
  }

  /** The hosts that NextHost chooses from. */
  function Offered(left: seq<string>, hosts: Option<seq<string>>): seq<string> {
    if left != [] then left else if hosts.Some? then hosts.value else []
  }

  lemma {:induction false} OneLess(before: seq<string>, after: seq<string>, hid: string)
    requires multiset(before) == multiset(after) + multiset{hid}
    ensures |before| == |after| + 1 && forall h :: h in before && h != hid ==> h in after
  {
    assert |multiset(before)| == |multiset(after)| + 1;
    forall h | h in before && h != hid
      ensures h in after
    {
      assert h in multiset(before);
      assert h in multiset(after);
    }
  }

  class Scheduler {
    var avaliable: seq<string>
    /** The hosts of the last refill, and those drawn since. */
    ghost var refill: seq<string>
    ghost var drawn: seq<string>

    /** Every host of the refill is either still there or has been drawn, once. */
    ghost predicate Valid()
      reads this
    {
      multiset(refill) == multiset(avaliable) + multiset(drawn)
    }

    constructor ()
      ensures Valid() && avaliable == []
    {
      avaliable, refill, drawn := [], [], [];
    }

    /** Any host of the list: it is swapped with the last one, and the list is cut by one. */
    method Draw() returns (hid: string)
      requires Valid() && avaliable != []
      modifies this`avaliable, this`drawn
      ensures Valid() && drawn == old(drawn) + [hid]
      ensures multiset(old(avaliable)) == multiset(avaliable) + multiset{hid}
    {
      var idx: nat :| idx < |avaliable|;
      hid := avaliable[idx];
      var last := |avaliable| - 1;
      SwapRemove(avaliable, idx);
      avaliable := avaliable[idx := avaliable[last]][..last];
      drawn := drawn + [hid];
    }

    /** findSuitableHost. rand.Intn is any index; os.IsExist is false of every error that the check
        returns, so no second best host is ever kept. The verdict on a host is a parameter. */
    method FindSuitableHost(verdict: string -> Verdict) returns (r: Choice)
      requires Valid()
      modifies this`avaliable, this`drawn
      ensures Valid() && old(drawn) <= drawn
      ensures |drawn| - |old(drawn)| <= MAX_TRY
      ensures r.Host? ==> |drawn| > |old(drawn)| && drawn[|drawn| - 1] == r.hid && verdict(r.hid).Admitted?
      ensures forall i :: |old(drawn)| <= i < |drawn| - (if r.Host? then 1 else 0) ==> !verdict(drawn[i]).Admitted?
      ensures r.NoHost? ==> avaliable == [] || |drawn| - |old(drawn)| == MAX_TRY
      ensures HasAdmitted(old(avaliable), verdict) ==> r.Host?
    {
      var maxTry := MAX_TRY;
      while |avaliable| > 0 && maxTry > 0
        invariant Valid() && old(drawn) <= drawn && maxTry + |drawn| - |old(drawn)| == MAX_TRY && maxTry >= 0
        invariant forall i :: |old(drawn)| <= i < |drawn| ==> !verdict(drawn[i]).Admitted?
        invariant |avaliable| <= |old(avaliable)| - (MAX_TRY - maxTry)
        invariant forall h :: h in old(avaliable) && verdict(h).Admitted? ==> h in avaliable
        decreases maxTry
      {
        maxTry := maxTry - 1;
        ghost var before := avaliable;
        var hid := Draw();
        OneLess(before, avaliable, hid);
        if verdict(hid).Admitted? {
          return Host(hid);
        }
      }
      return NoHost;
    }

    /** NextHost. hosts is what selectHost gives when the list has run out. */
    method NextHost(hosts: Option<seq<string>>, verdict: string -> Verdict) returns (r: Choice)
      requires Valid()
      modifies this
      ensures Valid()
      ensures if old(avaliable) == [] && hosts.Some? && hosts.value != [] then refill == hosts.value
              else refill == old(refill) && old(drawn) <= drawn
      ensures r.Host? ==> r.hid in refill && drawn != [] && drawn[|drawn| - 1] == r.hid && verdict(r.hid).Admitted?
      ensures old(avaliable) == [] && (hosts.None? || hosts.value == []) ==> r == NoHost && drawn == old(drawn)
      ensures HasAdmitted(Offered(old(avaliable), hosts), verdict) ==> r.Host?
      ensures r.NoHost? && Offered(old(avaliable), hosts) != [] ==>
                avaliable == [] || |drawn| - (if old(avaliable) == [] then 0 else |old(drawn)|) == MAX_TRY
    {
      if |avaliable| == 0 {
        if hosts.None? || |hosts.value| == 0 {
          return NoHost;
        }
        avaliable := hosts.value;
        refill, drawn := hosts.value, [];
      }
      r := FindSuitableHost(verdict);
      assert r.Host? ==> r.hid in multiset(refill);
    }
  }

  lemma {:induction false} SwapRemove(s: seq<string>, i: nat)
    requires i < |s|
    ensures
      var last := |s| - 1;
      multiset(s[i := s[last]][..last]) + multiset{s[i]} == multiset(s)
  {
    var last := |s| - 1;
    var t := s[i := s[last]];
    assert t == t[..last] + [t[last]];
    assert multiset(t) == multiset(s) - multiset{s[i]} + multiset{s[last]};
  }

  /** When the hosts of a refill are different, none is drawn twice before the next one. */
  lemma {:induction false} DrawnOnce(refill: seq<string>, avaliable: seq<string>, drawn: seq<string>, i: nat, j: nat)
    requires multiset(refill) == multiset(avaliable) + multiset(drawn)
    requires forall h :: multiset(refill)[h] <= 1
    requires i < j < |drawn|
    ensures drawn[i] != drawn[j] && drawn[i] !in avaliable
  {
    var h := drawn[i];
    assert drawn == drawn[..j] + drawn[j..];
    assert h in multiset(drawn[..j]);
    assert multiset(drawn)[h] == multiset(drawn[..j])[h] + multiset(drawn[j..])[h];
    assert drawn[j] in multiset(drawn[j..]) by {
      assert drawn[j..][0] == drawn[j];
    }
    assert h in avaliable <==> h in multiset(avaliable);
    assert multiset(refill)[h] <= 1;
  }
}
