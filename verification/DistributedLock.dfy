/**
 The Redis lock of `DistributedLock`: SET NX EX to acquire, value-checked scripts to
 release and extend.  Time is a logical clock; a key is live until its expiry.
 */
module DistributedLock {
  import opened Common

  datatype Cell = Cell(value: nat, expiry: int)

  predicate Live(key: Option<Cell>, now: int) { key.Some? && now < key.value.expiry }

  /** The effect of `SET key value NX EX ttl`; a ttl that is not positive is an error. */
  function SetNx(key: Option<Cell>, now: int, value: nat, ttl: int): Option<Cell> {
    if Live(key, now) || ttl <= 0 then key else Some(Cell(value, now + ttl))
  }

  /** The release script. */
  function DeleteIfOwn(key: Option<Cell>, now: int, value: nat): Option<Cell> {
    if Live(key, now) && key.value.value == value then None else key
  }

  /** The extension script; `EXPIRE` with a ttl that is not positive removes the key at once. */
  function ExpireIfOwn(key: Option<Cell>, now: int, value: nat, ttl: int): Option<Cell> {
    if Live(key, now) && key.value.value == value then Some(Cell(value, now + ttl)) else key
  }

  /** The attempts of `acquire`: whether one got the lock, the key they leave and the time of the last one. */
  function Attempts(key: Option<Cell>, now: int, value: nat, ttl: int, pauses: seq<nat>, nets: seq<Net>): (bool, Option<Cell>, int)
    requires |pauses| == |nets|
    decreases |pauses|
  {
    if pauses == [] then (false, key, now)
    else
      var t := now + pauses[0];
      var after := if nets[0] == NotSent then key else SetNx(key, t, value, ttl);
      if nets[0] == Answered && !Live(key, t) && ttl > 0 then (true, after, t)
      else Attempts(after, t, value, ttl, pauses[1..], nets[1..])
  }

  /** The time of attempt `k`. */
  function Clock(now: int, pauses: seq<nat>, k: nat): int
    requires k < |pauses|
    decreases k
  {
    if k == 0 then now + pauses[0] else Clock(now + pauses[0], pauses[1..], k - 1)
  }

  /** The key as attempt `k` finds it: only earlier attempts whose answer was lost can have changed it. */
  function KeyBefore(key: Option<Cell>, now: int, value: nat, ttl: int, pauses: seq<nat>, nets: seq<Net>, k: nat): Option<Cell>
    requires k < |pauses| == |nets|
    decreases k
  {
    if k == 0 then key
    else
      var t := now + pauses[0];
      KeyBefore(if nets[0] == AnswerLost then SetNx(key, t, value, ttl) else key, t, value, ttl, pauses[1..], nets[1..], k - 1)
  }

  /** Attempt `k` is answered at a time when the key it finds is free. */
  ghost predicate MeetsFreeKey(key: Option<Cell>, now: int, value: nat, ttl: int, pauses: seq<nat>, nets: seq<Net>, k: int) {
    && 0 <= k < |pauses| == |nets| && nets[k] == Answered
    && !Live(KeyBefore(key, now, value, ttl, pauses, nets, k), Clock(now, pauses, k))
  }

  /** `acquire` succeeds exactly when some answered attempt meets a free key; its own lost SETs stand in its way like anybody's. */
  lemma {:induction false} AcquireIffFree(key: Option<Cell>, now: int, value: nat, ttl: int, pauses: seq<nat>, nets: seq<Net>)
    requires |pauses| == |nets|
    ensures Attempts(key, now, value, ttl, pauses, nets).0 <==>
            ttl > 0 && exists k :: MeetsFreeKey(key, now, value, ttl, pauses, nets, k)
    decreases |pauses|
  {
    if pauses != [] {
      var t := now + pauses[0];
      var after := if nets[0] == AnswerLost then SetNx(key, t, value, ttl) else key;
      if nets[0] == Answered && !Live(key, t) && ttl > 0 {
        assert MeetsFreeKey(key, now, value, ttl, pauses, nets, 0);
      } else {
        AcquireIffFree(after, t, value, ttl, pauses[1..], nets[1..]);
        if k :| MeetsFreeKey(after, t, value, ttl, pauses[1..], nets[1..], k) {
          assert MeetsFreeKey(key, now, value, ttl, pauses, nets, k + 1);
        }
        if k :| MeetsFreeKey(key, now, value, ttl, pauses, nets, k) {
          if k > 0 { assert MeetsFreeKey(after, t, value, ttl, pauses[1..], nets[1..], k - 1); }
        }
      }
    }
  }

  /** Without lost answers every attempt finds the key that was there from the start. */
  lemma {:induction false} KeyIsOriginal(key: Option<Cell>, now: int, value: nat, ttl: int, pauses: seq<nat>, nets: seq<Net>, k: nat)
    requires k < |pauses| == |nets| && forall j :: 0 <= j < k ==> nets[j] != AnswerLost
    ensures KeyBefore(key, now, value, ttl, pauses, nets, k) == key
    decreases k
  {
    if k > 0 { KeyIsOriginal(key, now + pauses[0], value, ttl, pauses[1..], nets[1..], k - 1); }
  }

  /** An attempt whose SET went through but whose answer was lost makes every later attempt fail until the ttl has passed. */
  lemma LostSetBlocksItself(key: Option<Cell>, now: int, value: nat, ttl: int, pauses: seq<nat>, nets: seq<Net>)
    requires |pauses| == |nets| > 0 && nets[0] == AnswerLost && !Live(key, now + pauses[0]) && ttl > 0
    requires forall k :: 0 <= k < |pauses| ==> Clock(now, pauses, k) < now + pauses[0] + ttl
    ensures !Attempts(key, now, value, ttl, pauses, nets).0
  {
    var t := now + pauses[0];
    assert forall k :: 0 <= k < |pauses| - 1 ==> Clock(t, pauses[1..], k) == Clock(now, pauses, k + 1);
    LiveKeyBlocks(Some(Cell(value, t + ttl)), t, value, ttl, pauses[1..], nets[1..]);
  }

  lemma {:induction false} LiveKeyBlocks(key: Option<Cell>, now: int, value: nat, ttl: int, pauses: seq<nat>, nets: seq<Net>)
    requires |pauses| == |nets| && key.Some? && forall k :: 0 <= k < |pauses| ==> Clock(now, pauses, k) < key.value.expiry
    ensures !Attempts(key, now, value, ttl, pauses, nets).0
    decreases |pauses|
  {
    if pauses != [] {
      var t := now + pauses[0];
      assert Clock(now, pauses, 0) == t;
      assert forall k :: 0 <= k < |pauses| - 1 ==> Clock(t, pauses[1..], k) == Clock(now, pauses, k + 1);
      LiveKeyBlocks(key, t, value, ttl, pauses[1..], nets[1..]);
    }
  }

  // ---- the lock object ----

  /** What became of a command: answered, executed but its answer lost, or never executed. */
  datatype Net = Answered | AnswerLost | NotSent

  class Redis {
    var up: bool
    var now: int
    var key: Option<Cell>
  }

  class Lock {
    const value: nat
    const ttl: int
    const retryTimes: nat
    const redis: Redis
    var acquired: bool

    constructor (redis: Redis, value: nat, ttl: int, retryTimes: nat)
      ensures this.redis == redis && this.value == value && this.ttl == ttl && this.retryTimes == retryTimes && !acquired
    {
      this.redis, this.value, this.ttl, this.retryTimes, acquired := redis, value, ttl, retryTimes, false;
    }

    /** `acquire`: `pauses[k]` is the time that passes before attempt `k`, `nets[k]` what the network does to it. */
    method Acquire(pauses: seq<nat>, nets: seq<Net>) returns (ok: bool)
      requires |pauses| == |nets| == retryTimes
      modifies this`acquired, redis`key, redis`now
      ensures !redis.up ==> ok && acquired == old(acquired) && redis.key == old(redis.key) && redis.now == old(redis.now)
      ensures redis.up ==>
                (ok, redis.key, redis.now) == Attempts(old(redis.key), old(redis.now), value, ttl, pauses, nets)
      ensures redis.up && ok ==> acquired && redis.key == Some(Cell(value, redis.now + ttl)) && ttl > 0
      ensures !ok ==> acquired == old(acquired)
      ensures old(redis.now) <= redis.now
      ensures Live(old(redis.key), redis.now) ==> redis.key == old(redis.key) && (redis.up ==> !ok)
      ensures redis.key == old(redis.key) || (redis.key.Some? && redis.key.value.value == value)
    {
      if !redis.up { return true; }
      assert pauses[0..] == pauses && nets[0..] == nets;
      for attempt := 0 to retryTimes
        invariant Attempts(old(redis.key), old(redis.now), value, ttl, pauses, nets) ==
                  Attempts(redis.key, redis.now, value, ttl, pauses[attempt..], nets[attempt..])
        invariant acquired == old(acquired) && old(redis.now) <= redis.now
        invariant Live(old(redis.key), redis.now) ==> redis.key == old(redis.key)
        invariant redis.key == old(redis.key) || (redis.key.Some? && redis.key.value.value == value)
      {
        redis.now := redis.now + pauses[attempt];
        var free := !Live(redis.key, redis.now) && ttl > 0;
        if nets[attempt] != NotSent { redis.key := SetNx(redis.key, redis.now, value, ttl); }
        if nets[attempt] == Answered && free {
          acquired := true;
          return true;
        }
      }
      return false;
    }

    method Release(net: Net) returns (ok: bool)
      modifies this`acquired, redis`key
      ensures !old(acquired) || !redis.up ==> ok && redis.key == old(redis.key) && acquired == old(acquired)
      ensures old(acquired) && redis.up ==>
                && redis.key == (if net == NotSent then old(redis.key) else DeleteIfOwn(old(redis.key), redis.now, value))
                && acquired == (net != Answered)
                && (ok <==> net == Answered && Live(old(redis.key), redis.now) && old(redis.key).value.value == value)
    {
      if !acquired { return true; }
      if !redis.up { return true; }
      var own := Live(redis.key, redis.now) && redis.key.value.value == value;
      if net != NotSent && own { redis.key := None; }
      if net != Answered { return false; }
      acquired := false;
      return own;
    }

    method Extend(additional: Option<int>, net: Net) returns (ok: bool)
      modifies redis`key
      ensures !acquired ==> !ok && redis.key == old(redis.key)
      ensures acquired && !redis.up ==> ok && redis.key == old(redis.key)
      ensures acquired && redis.up ==>
                && redis.key == (if net == NotSent then old(redis.key)
                                 else ExpireIfOwn(old(redis.key), redis.now, value,
                                                  if additional.Some? && additional.value != 0 then additional.value else ttl))
                && (ok <==> net == Answered && Live(old(redis.key), redis.now) && old(redis.key).value.value == value)
    {
      if !acquired { return false; }
      if !redis.up { return true; }
      var t := EffectiveTtl(additional, ttl);
      var own := Live(redis.key, redis.now) && redis.key.value.value == value;
      if net != NotSent && own { redis.key := Some(Cell(value, redis.now + t)); }
      return own && net == Answered;
    }
  }

  /** `additional_ttl or self.ttl`. */
  function EffectiveTtl(additional: Option<int>, ttl: int): int {
    match additional case Some(t) => (if t != 0 then t else ttl) case None => ttl
  }

  // ---- any number of lock objects on one key ----

  /**
   `lease` is the deadline that the holder can count on: set by a successful acquire, moved
   by an extension (never later than it may have taken effect), dropped by the release call.
   */
  datatype Holder = Holder(value: nat, ttl: int, acquired: bool, lease: Option<int>)
  datatype System = System(now: int, key: Option<Cell>, holders: seq<Holder>)

  datatype Step =
    | Tick(passed: nat)
    | TrySet(i: nat, net: Net)
    | TryRelease(i: nat, net: Net)
    | TryExtend(i: nat, additional: Option<int>, net: Net)
    | Degraded(i: nat)

  function Min(a: int, b: int): int { if a < b then a else b }

  function Next(s: System, step: Step): System {
    match step
    case Tick(passed) => s.(now := s.now + passed)
    case TrySet(i, net) =>
      if i >= |s.holders| || net == NotSent then s
      else
        var h := s.holders[i];
        var t := s.(key := SetNx(s.key, s.now, h.value, h.ttl));
        if net == Answered && !Live(s.key, s.now) && h.ttl > 0
        then t.(holders := s.holders[i := h.(acquired := true, lease := Some(s.now + h.ttl))]) else t
    case TryRelease(i, net) =>
      if i >= |s.holders| || !s.holders[i].acquired then s
      else
        var h := s.holders[i];
        var key := if net == NotSent then s.key else DeleteIfOwn(s.key, s.now, h.value);
        s.(key := key, holders := s.holders[i := h.(acquired := net != Answered, lease := None)])
    case TryExtend(i, additional, net) =>
      if i >= |s.holders| || !s.holders[i].acquired || net == NotSent then s
      else
        var h := s.holders[i];
        var t := EffectiveTtl(additional, h.ttl);
        var own := Live(s.key, s.now) && s.key.value.value == h.value;
        var lease := if !own || h.lease.None? then h.lease
                     else if net == Answered then Some(s.now + t) else Some(Min(h.lease.value, s.now + t));
        s.(key := ExpireIfOwn(s.key, s.now, h.value, t), holders := s.holders[i := h.(lease := lease)])
    case Degraded(i) =>  // Redis unavailable: the caller is let through
      if i >= |s.holders| then s
      else s.(holders := s.holders[i := s.holders[i].(lease := Some(s.now + s.holders[i].ttl))])
  }

  function Run(s: System, steps: seq<Step>): System {
    if steps == [] then s else Next(Run(s, steps[..|steps| - 1]), steps[|steps| - 1])
  }

  ghost predicate Holds(s: System, i: nat)
    requires i < |s.holders|
  {
    s.holders[i].lease.Some? && s.now < s.holders[i].lease.value
  }

  ghost predicate Fresh(s: System) {
    && (forall i :: 0 <= i < |s.holders| ==> !s.holders[i].acquired && s.holders[i].lease == None)
    && Distinct(s)
  }

  ghost predicate Distinct(s: System) {
    forall i, j :: 0 <= i < j < |s.holders| ==> s.holders[i].value != s.holders[j].value
  }

  /** A holder's unexpired lease is backed by the key, under its own value and at least as long. */
  ghost predicate Backed(s: System, i: nat)
    requires i < |s.holders|
  {
    Holds(s, i) ==> Live(s.key, s.now) && s.key.value.value == s.holders[i].value && s.holders[i].lease.value <= s.key.value.expiry
  }

  ghost predicate Inv(s: System) {
    Distinct(s) && forall i :: 0 <= i < |s.holders| ==> Backed(s, i)
  }

  lemma InvStep(s: System, step: Step)
    requires Inv(s) && !step.Degraded?
    ensures Inv(Next(s, step))
  {
    var s' := Next(s, step);
    forall i | 0 <= i < |s'.holders| ensures Backed(s', i) {
      assert Backed(s, i);
    }
  }

  ghost predicate RedisAvailable(steps: seq<Step>) {
    forall i :: 0 <= i < |steps| ==> !steps[i].Degraded?
  }

  /**
   For any number of lock objects with distinct values and any interleaving of acquires,
   extensions, releases, lost answers and the passing of time, with Redis available: at most
   one object is between a successful acquire and its release call with an unexpired lease.
   */
  lemma {:induction false} MutualExclusion(s: System, steps: seq<Step>)
    requires Fresh(s) && RedisAvailable(steps)
    ensures Inv(Run(s, steps))
    ensures var r := Run(s, steps);
            forall i, j :: 0 <= i < j < |r.holders| ==> !(Holds(r, i) && Holds(r, j))
  {
    if steps != [] {
      MutualExclusion(s, steps[..|steps| - 1]);
      InvStep(Run(s, steps[..|steps| - 1]), steps[|steps| - 1]);
    }
    var r := Run(s, steps);
    forall i, j | 0 <= i < j < |r.holders| ensures !(Holds(r, i) && Holds(r, j)) {
      assert Backed(r, i) && Backed(r, j);
    }
  }

  /** Releasing or extending, whether in time or late, never removes, prolongs or shortens the lock of another object. */
  lemma OthersUntouched(s: System, step: Step, i: nat, j: nat)
    requires Distinct(s) && i < |s.holders| && j < |s.holders| && i != j
    requires (step.TryRelease? || step.TryExtend?) && step.i == i
    requires Live(s.key, s.now) && s.key.value.value == s.holders[j].value
    ensures Next(s, step).key == s.key && Next(s, step).holders[j] == s.holders[j]
  {
  }

  /** A release in time frees the key: the next attempt of another object gets it. */
  lemma ReleaseHandsOver(s: System, i: nat, j: nat)
    requires Inv(s) && i < |s.holders| && j < |s.holders| && i != j && s.holders[i].acquired && Holds(s, i) && s.holders[j].ttl > 0
    ensures var r := Next(Next(s, TryRelease(i, Answered)), TrySet(j, Answered));
            Holds(r, j) && !Holds(r, i)
  {
    assert Backed(s, i);
  }

  /** An extension in time moves the deadline and the expiry of the key together. */
  lemma ExtensionMovesDeadline(s: System, i: nat, additional: Option<int>)
    requires Inv(s) && i < |s.holders| && s.holders[i].acquired && Holds(s, i)
    ensures var s' := Next(s, TryExtend(i, additional, Answered));
            var deadline := s.now + EffectiveTtl(additional, s.holders[i].ttl);
            s'.holders[i].lease == Some(deadline) && s'.key == Some(Cell(s.holders[i].value, deadline))
  {
    assert Backed(s, i);
  }

  /** Without Redis every acquire succeeds, so two objects hold the lock together. */
  lemma DegradedBreaksExclusion(s: System, i: nat, j: nat)
    requires i < |s.holders| && j < |s.holders| && i != j && s.holders[i].ttl > 0 && s.holders[j].ttl > 0
    ensures var r := Next(Next(s, Degraded(i)), Degraded(j));
            Holds(r, i) && Holds(r, j)
  {
  }

  // ---- an extension whose answer is lost ----

  /** The steps of everybody but object `i`, with Redis available. */
  ghost predicate ByOthers(steps: seq<Step>, i: nat) {
    forall k :: 0 <= k < |steps| ==> steps[k].Tick? || (!steps[k].Degraded? && steps[k].i != i)
  }

  /** Another object holds the lock before time `deadline`. */
  ghost predicate OtherHolds(s: System, i: nat, deadline: int) {
    s.now < deadline && exists j :: 0 <= j < |s.holders| && j != i && Holds(s, j)
  }

  /** As long as the key of object `i` lives, the others cannot change it. */
  lemma {:induction false} KeyIsSafe(s: System, steps: seq<Step>, i: nat)
    requires Inv(s) && i < |s.holders| && ByOthers(steps, i) && s.key.Some? && s.key.value.value == s.holders[i].value
    ensures var r := Run(s, steps);
            Inv(r) && |r.holders| == |s.holders| && s.now <= r.now && r.holders[i] == s.holders[i]
    ensures Run(s, steps).now < s.key.value.expiry ==> Run(s, steps).key == s.key
  {
    if steps != [] {
      var before, last := Run(s, steps[..|steps| - 1]), steps[|steps| - 1];
      KeyIsSafe(s, steps[..|steps| - 1], i);
      InvStep(before, last);
      OthersCannotTouch(before, last, i);
    }
  }

  lemma OthersCannotTouch(s: System, step: Step, i: nat)
    requires Distinct(s) && i < |s.holders| && ByOthers([step], i)
    ensures var r := Next(s, step);
            |r.holders| == |s.holders| && s.now <= r.now && r.holders[i] == s.holders[i]
    ensures s.key.Some? && s.key.value.value == s.holders[i].value && Live(s.key, Next(s, step).now) ==> Next(s, step).key == s.key
  {
    assert [step][0] == step;
  }

  /**
   If an extension's answer is lost, some continuation lets another object in before the old
   deadline exactly when the extension was shorter than what was left.
   */
  lemma LostExtensionDeadline(s: System, i: nat, j: nat, additional: Option<int>)
    requires Inv(s) && i < |s.holders| && Holds(s, i) && s.holders[i].acquired
    requires j < |s.holders| && j != i && s.holders[j].ttl > 0
    ensures var s', deadline := Next(s, TryExtend(i, additional, AnswerLost)), s.holders[i].lease.value;
            (exists steps :: ByOthers(steps, i) && OtherHolds(Run(s', steps), i, deadline)) <==>
            s.now + EffectiveTtl(additional, s.holders[i].ttl) < deadline
  {
    var s', deadline := Next(s, TryExtend(i, additional, AnswerLost)), s.holders[i].lease.value;
    var t := EffectiveTtl(additional, s.holders[i].ttl);
    assert Backed(s, i);
    assert s'.key == Some(Cell(s.holders[i].value, s.now + t));
    InvStep(s, TryExtend(i, additional, AnswerLost));
    if s.now + t < deadline {
      var steps := OtherGetsIn(s', i, j, if t > 0 then t else 0);
      assert OtherHolds(Run(s', steps), i, deadline);
    } else {
      forall steps | ByOthers(steps, i) ensures !OtherHolds(Run(s', steps), i, deadline) {
        KeyIsSafe(s', steps, i);
        NobodyElse(Run(s', steps), i, deadline);
      }
    }
  }

  lemma NobodyElse(s: System, i: nat, deadline: int)
    requires Inv(s) && i < |s.holders| && (s.now < deadline ==> s.key.Some? && s.key.value.value == s.holders[i].value)
    ensures !OtherHolds(s, i, deadline)
  {
    if s.now < deadline {
      forall j | 0 <= j < |s.holders| && j != i ensures !Holds(s, j) {
        assert Backed(s, j);
      }
    }
  }

  /** Once the key has run out, the next attempt of object `j` gets the lock. */
  lemma OtherGetsIn(s: System, i: nat, j: nat, passed: nat) returns (steps: seq<Step>)
    requires j < |s.holders| && j != i && s.holders[j].ttl > 0 && !Live(s.key, s.now + passed)
    ensures ByOthers(steps, i)
    ensures var r := Run(s, steps);
            r.now == s.now + passed && |r.holders| == |s.holders| && Holds(r, j)
  {
    steps := [Tick(passed), TrySet(j, Answered)];
    assert steps[..1] == [Tick(passed)] && steps[..1][..0] == [];
    assert Run(s, steps[..1]) == s.(now := s.now + passed);
  }

  /** A lock that was set but whose answer was lost is not held by anybody, and frees itself when its ttl has passed. */
  lemma LostAcquireFreesItself(s: System, i: nat, j: nat)
    requires Inv(s) && i < |s.holders| && j < |s.holders| && !Live(s.key, s.now)
    requires s.holders[i].ttl > 0 && s.holders[j].ttl > 0
    ensures var lost := Next(s, TrySet(i, AnswerLost));
            && (forall k :: 0 <= k < |lost.holders| ==> !Holds(lost, k))
            && Next(lost, TrySet(j, Answered)).key == lost.key
            && Holds(Next(Next(lost, Tick(s.holders[i].ttl)), TrySet(j, Answered)), j)
  {
    var lost := Next(s, TrySet(i, AnswerLost));
    forall k | 0 <= k < |lost.holders| ensures !Holds(lost, k) {
      assert Backed(s, k);
    }
  }
}
