/**
 The version-tagged cache: `CacheService.set_with_version` and `get_with_version`, the
 shared counter of `CacheInvalidator`, and the read-through of `QuotaRepository.get_quota`.

 In the protocol below a cached value is identified by its stamp, the number of database
 commits it reflects.
 */
module VersionedCache {
  import opened Common

  type Key = nat

  datatype Payload<+T> = Raw(data: T) | Tagged(version: nat, data: T)

  /**
   `get_with_version`.  A hit on the expected version is unwrapped, so the answer is `Raw`;
   without an expected version whatever is stored is handed out as it is, wrapper included.
   */
  function Lookup<T>(store: map<Key, Payload<T>>, key: Key, expected: Option<nat>): Option<Payload<T>> {
    if key !in store then None
    else
      match expected
      case None => Some(store[key])
      case Some(v) => if store[key].Tagged? && store[key].version == v then Some(Raw(store[key].data)) else None
  }

  function Wrapped<T>(data: T, version: Option<nat>): Payload<T> {
    match version case Some(v) => Tagged(v, data) case None => Raw(data)
  }

  class CacheService<T> {
    var available: bool
    var store: map<Key, Payload<T>>
    var counter: Option<nat>

    method Set(key: Key, payload: Payload<T>, nx: bool) returns (ok: bool)
      modifies this`store
      ensures ok <==> available && (nx ==> key !in old(store))
      ensures store == if ok then old(store)[key := payload] else old(store)
    {
      if !available { return false; }
      if nx && key in store { return false; }
      store := store[key := payload];
      return true;
    }

    method SetWithVersion(key: Key, data: T, version: nat) returns (ok: bool)
      modifies this`store
      ensures ok == available
      ensures ok ==> Lookup(store, key, Some(version)) == Some(Raw(data))
      ensures ok ==> forall v :: v != version ==> Lookup(store, key, Some(v)) == None
      ensures forall k, v :: k != key ==> Lookup(store, k, v) == Lookup(old(store), k, v)
    {
      ok := Set(key, Tagged(version, data), false);
    }

    method GetWithVersion(key: Key, expected: Option<nat>) returns (r: Option<Payload<T>>)
      ensures r == if available then Lookup(store, key, expected) else None
    {
      if !available || key !in store { return None; }
      var payload := store[key];
      if expected.None? { return Some(payload); }
      if payload.Tagged? && payload.version == expected.value { return Some(Raw(payload.data)); }
      return None;
    }

    method Delete(key: Key) returns (ok: bool)
      modifies this`store
      ensures ok == available
      ensures store == if ok then old(store) - {key} else old(store)
    {
      if available { store := store - {key}; }
      return available;
    }

    /** `bump_version`: `INCR` creates the counter at 1; without Redis nothing happens and 0 is returned. */
    method BumpVersion() returns (version: nat)
      modifies this`counter
      ensures available ==> counter == Some(version) && version == 1 + (if old(counter).Some? then old(counter).value else 0)
      ensures !available ==> counter == old(counter) && version == 0
    {
      if !available { return 0; }
      version := if counter.Some? then counter.value + 1 else 1;
      counter := Some(version);
    }
  }

  // ---- the protocol ----

  /**
   `Committed` and `Deleted` are `_invalidate_cache` under way.  A write-through fill commits
   (`Filling`), reads the row again (`Refreshed`), bumps (`Filled`) and stores.
   */
  datatype Writer =
    | Resting
    | Committed(n: nat)
    | Deleted(n: nat)
    | Filling(n: nat)
    | Refreshed(n: nat, stamp: nat)
    | Filled(stamp: nat, version: nat)

  /**
   `floor` is the number of bumps that had happened when the read began; `hit` tells whether
   the value came out of the cache.
   */
  datatype Reader =
    | Waiting
    | Versioned(v: Option<nat>, floor: nat)
    | Missed(v: Option<nat>, floor: nat)
    | Loaded(v: Option<nat>, floor: nat, stamp: nat)
    | Returned(v: Option<nat>, floor: nat, value: Payload<nat>, hit: bool)

  /** Bump number `i`, which made the counter `i + 1`, was issued for commit `bumped[i]`. */
  datatype System = System(commits: nat, bumped: seq<nat>, store: map<Key, Payload<nat>>, writers: seq<Writer>, readers: seq<Reader>)

  datatype Step =
    | Commit(w: nat, fill: bool)
    | Delete(w: nat, key: Key)
    | DeleteFails(w: nat)
    | Refresh(w: nat)
    | Bump(w: nat)
    | BumpFails(w: nat, counted: bool)
    | FillStore(w: nat, key: Key)
    | Abandon(w: nat)
    | ForeignBump
    | ReadVersion(r: nat)
    | VersionFails(r: nat)
    | Look(r: nat, key: Key)
    | Load(r: nat)
    | Store(r: nat, key: Key)
    | Evict(key: Key)

  predicate ByWriter(step: Step) {
    || step.Commit? || step.Delete? || step.DeleteFails? || step.Refresh? || step.Bump? || step.BumpFails?
    || step.FillStore? || step.Abandon?
  }

  predicate ByReader(step: Step) {
    step.ReadVersion? || step.VersionFails? || step.Look? || step.Load? || step.Store?
  }

  function Version(s: System): Option<nat> {
    if s.bumped == [] then None else Some(|s.bumped|)
  }

  /** The writer has committed and its bump is still to come. */
  predicate Pending(writer: Writer) { !writer.Resting? && !writer.Filled? }

  /** The writer can bump now. */
  predicate AtBump(writer: Writer) { writer.Deleted? || writer.Refreshed? }

  function NextWriter(s: System, w: nat, step: Step): System
    requires w < |s.writers|
  {
    var writer := s.writers[w];
    match step
    case Commit(_, fill) =>
      if writer.Resting? then
        s.(commits := s.commits + 1, writers := s.writers[w := if fill then Filling(s.commits + 1) else Committed(s.commits + 1)])
      else s
    case Delete(_, key) =>
      if writer.Committed? then s.(store := s.store - {key}, writers := s.writers[w := Deleted(writer.n)]) else s
    case DeleteFails(_) => if writer.Committed? then s.(writers := s.writers[w := Deleted(writer.n)]) else s
    case Refresh(_) => if writer.Filling? then s.(writers := s.writers[w := Refreshed(writer.n, s.commits)]) else s
    case Bump(_) =>
      if AtBump(writer) then
        s.(bumped := s.bumped + [writer.n],
           writers := s.writers[w := if writer.Deleted? then Resting else Filled(writer.stamp, |s.bumped| + 1)])
      else s
    case BumpFails(_, counted) =>  // 0 is returned, whether the counter moved or not; a fill goes on with that tag
      if AtBump(writer) then
        s.(bumped := if counted then s.bumped + [writer.n] else s.bumped,
           writers := s.writers[w := if writer.Deleted? then Resting else Filled(writer.stamp, 0)])
      else s
    case FillStore(_, key) =>
      if writer.Filled? then
        s.(store := s.store[key := Tagged(writer.version, writer.stamp)], writers := s.writers[w := Resting])
      else s
    case _ => s.(writers := s.writers[w := Resting])
  }

  function NextReader(s: System, r: nat, step: Step): System
    requires r < |s.readers|
  {
    var reader := s.readers[r];
    match step
    case ReadVersion(_) => if reader.Waiting? then s.(readers := s.readers[r := Versioned(Version(s), |s.bumped|)]) else s
    case VersionFails(_) => if reader.Waiting? then s.(readers := s.readers[r := Versioned(None, |s.bumped|)]) else s
    case Look(_, key) =>
      if reader.Versioned? then
        match Lookup(s.store, key, reader.v)
        case Some(found) => s.(readers := s.readers[r := Returned(reader.v, reader.floor, found, true)])
        case None => s.(readers := s.readers[r := Missed(reader.v, reader.floor)])
      else s
    case Load(_) =>
      if reader.Missed? then s.(readers := s.readers[r := Loaded(reader.v, reader.floor, s.commits)]) else s
    case Store(_, key) =>
      if reader.Loaded? then
        s.(store := s.store[key := Wrapped(reader.stamp, reader.v)],
           readers := s.readers[r := Returned(reader.v, reader.floor, Raw(reader.stamp), false)])
      else s
    case _ => s
  }

  function Next(s: System, step: Step): System {
    if ByWriter(step) then (if step.w < |s.writers| then NextWriter(s, step.w, step) else s)
    else if ByReader(step) then (if step.r < |s.readers| then NextReader(s, step.r, step) else s)
    else if step.Evict? then s.(store := s.store - {step.key})
    else s.(bumped := s.bumped + [0])
  }

  function Run(s: System, steps: seq<Step>): System {
    if steps == [] then s else Next(Run(s, steps[..|steps| - 1]), steps[|steps| - 1])
  }

  ghost predicate Initial(s: System) {
    && s.bumped == [] && s.store == map[]
    && (forall w :: 0 <= w < |s.writers| ==> s.writers[w] == Resting)
    && (forall r :: 0 <= r < |s.readers| ==> s.readers[r] == Waiting)
  }

  // ---- freshness ----

  /** A value with this stamp reflects every commit whose bump made the counter `w` or less. */
  ghost predicate Fresh(s: System, w: nat, stamp: nat) {
    forall i :: 0 <= i < w && i < |s.bumped| ==> s.bumped[i] <= stamp
  }

  /** The read returned a quota, not a wrapper, that reflects every write that had bumped when the read began. */
  ghost predicate Good(s: System, reader: Reader) {
    reader.Returned? ==> reader.value.Raw? && Fresh(s, reader.floor, reader.value.data)
  }

  ghost predicate WriterSound(s: System, writer: Writer) {
    match writer
    case Resting => true
    case Refreshed(n, stamp) => n <= stamp <= s.commits
    case Filled(stamp, v) => stamp <= s.commits && v <= |s.bumped| && Fresh(s, v, stamp)
    case _ => writer.n <= s.commits
  }

  ghost predicate ReaderSound(s: System, reader: Reader) {
    match reader
    case Waiting => true
    case Versioned(v, floor) => floor <= |s.bumped| && (v.Some? ==> v.value == floor)
    case Missed(v, floor) => floor <= |s.bumped| && (v.Some? ==> v.value == floor)
    case Loaded(v, floor, stamp) => floor <= |s.bumped| && (v.Some? ==> v.value == floor) && Fresh(s, floor, stamp)
    case Returned(v, floor, _, hit) => floor <= |s.bumped| && (v.Some? || !hit ==> Good(s, reader))
  }

  ghost predicate StoreSound(s: System) {
    forall k :: k in s.store && s.store[k].Tagged? ==>
      s.store[k].version <= |s.bumped| && Fresh(s, s.store[k].version, s.store[k].data)
  }

  ghost predicate Inv(s: System) {
    && (forall i :: 0 <= i < |s.bumped| ==> s.bumped[i] <= s.commits)
    && StoreSound(s)
    && (forall w :: 0 <= w < |s.writers| ==> WriterSound(s, s.writers[w]))
    && (forall r :: 0 <= r < |s.readers| ==> ReaderSound(s, s.readers[r]))
  }

  /** When a write-through fill bumps, no write that committed after its refresh has bumped. */
  ghost predicate Undisturbed(s: System, step: Step) {
    step.Bump? && step.w < |s.writers| && s.writers[step.w].Refreshed? ==>
      forall i :: 0 <= i < |s.bumped| ==> s.bumped[i] <= s.writers[step.w].stamp
  }

  ghost predicate UndisturbedRun(s: System, steps: seq<Step>) {
    steps == [] ||
    (UndisturbedRun(s, steps[..|steps| - 1]) && Undisturbed(Run(s, steps[..|steps| - 1]), steps[|steps| - 1]))
  }

  ghost predicate Extends(s: System, s': System) {
    && s.commits <= s'.commits && |s.bumped| <= |s'.bumped|
    && forall i :: 0 <= i < |s.bumped| ==> s'.bumped[i] == s.bumped[i]
  }

  /** More commits and bumps never make a sound value unsound. */
  lemma SoundExtends(s: System, s': System)
    requires Extends(s, s')
    ensures forall w :: WriterSound(s, w) ==> WriterSound(s', w)
    ensures forall r :: ReaderSound(s, r) ==> ReaderSound(s', r)
    ensures StoreSound(s) && s'.store == s.store ==> StoreSound(s')
  {
  }

  lemma WriterStep(s: System, w: nat, step: Step)
    requires Inv(s) && w < |s.writers| && ByWriter(step) && step.w == w && Undisturbed(s, step)
    ensures Inv(NextWriter(s, w, step))
  {
    var s' := NextWriter(s, w, step);
    assert WriterSound(s, s.writers[w]);
    assert Extends(s, s');
    SoundExtends(s, s');
    assert WriterSound(s', s'.writers[w]);
    assert forall v :: 0 <= v < |s.writers| && v != w ==> s'.writers[v] == s.writers[v];
    SoundExtends(s, s'.(store := s.store));
    assert StoreSound(s'.(store := s.store));
  }

  lemma ReaderStep(s: System, r: nat, step: Step)
    requires Inv(s) && r < |s.readers|
    ensures Inv(NextReader(s, r, step))
  {
    var s' := NextReader(s, r, step);
    assert ReaderSound(s, s.readers[r]);
    SoundExtends(s, s');
    assert ReaderSound(s', s'.readers[r]);
    assert forall v :: 0 <= v < |s.readers| && v != r ==> s'.readers[v] == s.readers[v];
    SoundExtends(s, s'.(store := s.store));
  }

  lemma InvStep(s: System, step: Step)
    requires Inv(s) && Undisturbed(s, step)
    ensures Inv(Next(s, step))
  {
    if ByWriter(step) {
      if step.w < |s.writers| { WriterStep(s, step.w, step); }
    } else if ByReader(step) {
      if step.r < |s.readers| { ReaderStep(s, step.r, step); }
    } else {
      SoundExtends(s, Next(s, step));
    }
  }

  lemma {:induction false} InvRun(s: System, steps: seq<Step>)
    requires Inv(s) && UndisturbedRun(s, steps)
    ensures Inv(Run(s, steps))
  {
    if steps != [] {
      InvRun(s, steps[..|steps| - 1]);
      InvStep(Run(s, steps[..|steps| - 1]), steps[|steps| - 1]);
    }
  }

  /**
   In every interleaving of read-through fills, committing writers, evictions, failures and
   undisturbed write-through fills: an entry tagged `w` reflects every write whose bump gave
   a version of at most `w`, and a read whose version look-up answered, or which found no
   entry, returns a quota that reflects every write that had finished bumping when it began.
   */
  lemma ReadsAreFresh(s: System, steps: seq<Step>)
    requires Initial(s) && UndisturbedRun(s, steps)
    ensures Inv(Run(s, steps))
  {
    InvRun(s, steps);
  }

  // ---- exactly when a write-through fill is stale ----

  /** Writer `v` commits somewhere in these steps. */
  ghost predicate CommitsWithin(s: System, steps: seq<Step>, v: nat) {
    steps != [] &&
    var before, last := Run(s, steps[..|steps| - 1]), steps[|steps| - 1];
    || CommitsWithin(s, steps[..|steps| - 1], v)
    || (last.Commit? && last.w == v && v < |before.writers| && before.writers[v].Resting?)
  }

  /** Some writer both commits and bumps within these steps. */
  ghost predicate Overtaken(s: System, steps: seq<Step>) {
    steps != [] &&
    var before, last := Run(s, steps[..|steps| - 1]), steps[|steps| - 1];
    || Overtaken(s, steps[..|steps| - 1])
    || (Bumps(before, last) && CommitsWithin(s, steps[..|steps| - 1], last.w))
  }

  /** The step moves the counter on behalf of a write. */
  predicate Bumps(s: System, step: Step) {
    (step.Bump? || (step.BumpFails? && step.counted)) && step.w < |s.writers| && AtBump(s.writers[step.w])
  }

  /** After `steps`, the commits newer than `s` are exactly those made within the steps. */
  ghost predicate NewerAreWithin(s: System, steps: seq<Step>) {
    var r := Run(s, steps);
    && |r.writers| == |s.writers| && s.commits <= r.commits
    && (forall v :: 0 <= v < |r.writers| && Pending(r.writers[v]) ==>
          (r.writers[v].n > s.commits <==> CommitsWithin(s, steps, v)))
    && ((exists i :: 0 <= i < |r.bumped| && r.bumped[i] > s.commits) <==> Overtaken(s, steps))
  }

  lemma NewerStep(s: System, steps: seq<Step>, last: Step)
    requires NewerAreWithin(s, steps)
    ensures NewerAreWithin(s, steps + [last])
  {
    var all := steps + [last];
    assert all[..|all| - 1] == steps && all[|all| - 1] == last;
    var r, r' := Run(s, steps), Run(s, all);
    assert r' == Next(r, last);
    if Bumps(r, last) {
      assert r'.bumped == r.bumped + [r.writers[last.w].n];
      assert r'.bumped[|r.bumped|] == r.writers[last.w].n;
    } else {
      assert r'.bumped == r.bumped || r'.bumped == r.bumped + [0];
    }
    assert forall i :: 0 <= i < |r.bumped| ==> r'.bumped[i] == r.bumped[i];
  }

  lemma {:induction false} CommitsTracked(s: System, steps: seq<Step>)
    requires Inv(s)
    ensures NewerAreWithin(s, steps)
  {
    if steps == [] {
      forall v | 0 <= v < |s.writers| && Pending(s.writers[v]) ensures s.writers[v].n <= s.commits {
        assert WriterSound(s, s.writers[v]);
      }
    } else {
      CommitsTracked(s, steps[..|steps| - 1]);
      NewerStep(s, steps[..|steps| - 1], steps[|steps| - 1]);
      assert steps[..|steps| - 1] + [steps[|steps| - 1]] == steps;
    }
  }

  /**
   A fill that refreshed in state `s` and bumps after `steps`: the entry it stores is fresh for
   the next read exactly when no other write both committed and bumped in between.
   */
  lemma FillFreshIffUndisturbed(s: System, steps: seq<Step>, w: nat, key: Key, r: nat)
    requires Inv(s) && w < |s.writers| && s.writers[w].Refreshed? && s.writers[w].stamp == s.commits
    requires var m := Run(s, steps);
             w < |m.writers| && m.writers[w] == s.writers[w] && r < |m.readers| && m.readers[r] == Waiting
    ensures var m := Run(s, steps);
            var t := Next(Next(m, Bump(w)), FillStore(w, key));
            var u := Next(Next(t, ReadVersion(r)), Look(r, key));
            && u.readers[r] == Returned(Some(|m.bumped| + 1), |m.bumped| + 1, Raw(s.commits), true)
            && (Good(u, u.readers[r]) <==> !Overtaken(s, steps))
            && (Undisturbed(m, Bump(w)) <==> !Overtaken(s, steps))
  {
    var m, n := Run(s, steps), s.writers[w].n;
    CommitsTracked(s, steps);
    assert WriterSound(s, s.writers[w]);
    BumpAndStore(m, w, key);
    var t := Next(Next(m, Bump(w)), FillStore(w, key));
    ReadsBack(t, r, key);
    var u := Next(Next(t, ReadVersion(r)), Look(r, key));
    assert forall i :: 0 <= i < |m.bumped| ==> u.bumped[i] == m.bumped[i];
    assert u.bumped[|m.bumped|] == n;
  }

  /** The end of a fill. */
  lemma BumpAndStore(m: System, w: nat, key: Key)
    requires w < |m.writers| && m.writers[w].Refreshed?
    ensures var t := Next(Next(m, Bump(w)), FillStore(w, key));
            && t.bumped == m.bumped + [m.writers[w].n] && t.readers == m.readers
            && key in t.store && t.store[key] == Tagged(|m.bumped| + 1, m.writers[w].stamp)
  {
    var b := Next(m, Bump(w));
    assert b.writers[w] == Filled(m.writers[w].stamp, |m.bumped| + 1);
  }

  /** A whole read of an entry that carries the current version. */
  lemma ReadsBack(t: System, r: nat, key: Key)
    requires r < |t.readers| && t.readers[r] == Waiting && t.bumped != [] && key in t.store
    requires t.store[key].Tagged? && t.store[key].version == |t.bumped|
    ensures var u := Next(Next(t, ReadVersion(r)), Look(r, key));
            && u.bumped == t.bumped && r < |u.readers|
            && u.readers[r] == Returned(Some(|t.bumped|), |t.bumped|, Raw(t.store[key].data), true)
  {
    var v := Next(t, ReadVersion(r));
    assert v.readers[r] == Versioned(Some(|t.bumped|), |t.bumped|) && v.store == t.store;
  }

  lemma RunSnoc(s: System, steps: seq<Step>, step: Step)
    ensures Run(s, steps + [step]) == Next(Run(s, steps), step)
  {
    assert (steps + [step])[..|steps|] == steps;
  }

  /** State `t` is reached from `s` without disturbing a fill. */
  ghost predicate Reaches(s: System, t: System) {
    exists steps :: UndisturbedRun(s, steps) && Run(s, steps) == t
  }

  lemma ReachesStep(s: System, t: System, step: Step)
    requires Reaches(s, t) && Undisturbed(t, step)
    ensures Reaches(s, Next(t, step))
  {
    var steps :| UndisturbedRun(s, steps) && Run(s, steps) == t;
    assert (steps + [step])[..|steps|] == steps;
    assert UndisturbedRun(s, steps + [step]);
  }

  lemma ReachesSelf(s: System)
    ensures Reaches(s, s)
  {
    assert UndisturbedRun(s, []) && Run(s, []) == s;
  }

  /** Any fill can be overtaken, and is then stale: another writer only has to commit and bump in time. */
  lemma WriterOvertakes(s: System, v: nat) returns (steps: seq<Step>)
    requires v < |s.writers| && s.writers[v].Resting?
    ensures Overtaken(s, steps) && Run(s, steps).readers == s.readers && |Run(s, steps).writers| == |s.writers|
    ensures forall w :: 0 <= w < |s.writers| && w != v ==> Run(s, steps).writers[w] == s.writers[w]
  {
    var a: seq<Step> := [] + [Commit(v, false)];
    RunSnoc(s, [], Commit(v, false));
    assert a[..0] == [] && CommitsWithin(s, a, v);
    assert Run(s, a).writers == s.writers[v := Committed(s.commits + 1)];
    var b := a + [DeleteFails(v)];
    RunSnoc(s, a, DeleteFails(v));
    assert b[..1] == a && CommitsWithin(s, b, v);
    assert Run(s, b).writers == s.writers[v := Deleted(s.commits + 1)];
    RunSnoc(s, b, Bump(v));
    steps := b + [Bump(v)];
    assert steps[..2] == b;
  }

  /** What a read-through fill stored is found by the next read, as long as the version stands still. */
  lemma ReadThroughIsFound(s: System, r: nat, key: Key, next: nat)
    requires r < |s.readers| && next < |s.readers| && r != next && s.readers[next] == Waiting && s.bumped != []
    requires s.readers[r].Loaded? && s.readers[r].v == Some(|s.bumped|)
    ensures var t := Next(s, Store(r, key));
            var u := Next(Next(t, ReadVersion(next)), Look(next, key));
            && t.readers[r] == Returned(s.readers[r].v, s.readers[r].floor, Raw(s.readers[r].stamp), false)
            && next < |u.readers| && u.readers[next] == Returned(Some(|s.bumped|), |s.bumped|, Raw(s.readers[r].stamp), true)
  {
    var t := Next(s, Store(r, key));
    assert t.store[key] == Tagged(|s.bumped|, s.readers[r].stamp) && t.bumped == s.bumped;
    ReadsBack(t, next, key);
  }

  // ---- a deleted entry stays away ----

  ghost predicate Stores(step: Step, key: Key) {
    (step.Store? || step.FillStore?) && step.key == key
  }

  /** After the delete of a writer, no look finds an entry under the key until somebody stores one. */
  lemma {:induction false} DeletedStaysAway(s: System, w: nat, key: Key, steps: seq<Step>)
    requires w < |s.writers| && s.writers[w].Committed?
    requires forall i :: 0 <= i < |steps| ==> !Stores(steps[i], key)
    ensures var u := Run(Next(s, Delete(w, key)), steps);
            key !in u.store && forall v :: Lookup(u.store, key, v) == None
  {
    if steps != [] {
      DeletedStaysAway(s, w, key, steps[..|steps| - 1]);
      assert !Stores(steps[|steps| - 1], key);
    }
  }

  // ---- exactly when a read is good ----

  /**
   One look: the read goes on to the database or returns a good quota exactly when its version
   look-up answered, or there is no entry, or the entry carries no tag and is not outdated.
   A tagged entry met without a version is handed out with its wrapper.
   */
  lemma LookIsGoodIff(s: System, r: nat, key: Key)
    requires Inv(s) && r < |s.readers| && s.readers[r].Versioned?
    ensures var reader, u := s.readers[r], Next(s, Look(r, key));
            && (Good(u, u.readers[r]) <==>
                  || reader.v.Some? || key !in s.store
                  || (s.store[key].Raw? && Fresh(s, reader.floor, s.store[key].data)))
            && (reader.v.None? && key in s.store && s.store[key].Tagged? ==> u.readers[r].value.Tagged?)
  {
    var u := Next(s, Look(r, key));
    ReaderStep(s, r, Look(r, key));
    assert ReaderSound(u, u.readers[r]);
  }

  lemma {:induction false} VersionIsKept(s: System, steps: seq<Step>, r: nat)
    requires r < |s.readers| && !s.readers[r].Waiting?
    ensures var u := Run(s, steps);
            r < |u.readers| && !u.readers[r].Waiting? && u.readers[r].v == s.readers[r].v
  {
    if steps != [] { VersionIsKept(s, steps[..|steps| - 1], r); }
  }

  /** A fill under way puts a wrapper in front of a read that has no version. */
  lemma WrapperIsServed(s: System, r: nat, w: nat, key: Key) returns (u: System)
    requires Inv(s) && r < |s.readers| && s.readers[r].Versioned? && s.readers[r].v.None? && w < |s.writers| && s.writers[w].Resting?
    ensures Reaches(s, u) && r < |u.readers| && u.readers[r].Returned? && u.readers[r].value.Tagged?
  {
    u := FillReached(s, w, key);
    ReachesStep(s, u, Look(r, key));
    u := Next(u, Look(r, key));
  }

  lemma FillReached(s: System, w: nat, key: Key) returns (u: System)
    requires Inv(s) && w < |s.writers| && s.writers[w].Resting?
    ensures Reaches(s, u) && u.readers == s.readers && key in u.store && u.store[key].Tagged?
  {
    ReachesSelf(s);
    ReachesStep(s, s, Commit(w, true));
    var c := Next(s, Commit(w, true));
    assert c.writers[w] == Filling(s.commits + 1) && c.commits == s.commits + 1 && c.bumped == s.bumped;
    ReachesStep(s, c, Refresh(w));
    var m := Next(c, Refresh(w));
    assert m.writers[w] == Refreshed(s.commits + 1, s.commits + 1) && m.bumped == s.bumped && m.readers == s.readers;
    ReachesStep(s, m, Bump(w));
    var b := Next(m, Bump(w));
    ReachesStep(s, b, FillStore(w, key));
    u := Next(b, FillStore(w, key));
    BumpAndStore(m, w, key);
  }

  /** State `t` follows from `s` by the three steps. */
  ghost predicate Follows(s: System, a: Step, b: Step, c: Step, t: System) {
    && Undisturbed(s, a) && Undisturbed(Next(s, a), b) && Undisturbed(Next(Next(s, a), b), c)
    && t == Next(Next(Next(s, a), b), c)
  }

  /** An entry without a tag outlives a write: its reader loaded it before the write and stored it afterwards. */
  lemma UntaggedOutlivesWrite(s: System, key: Key) returns (loaded: System, written: System, u: System)
    requires Initial(s) && |s.writers| == 1 && |s.readers| == 2
    ensures Follows(s, ReadVersion(0), Look(0, key), Load(0), loaded)
    ensures Follows(loaded, Commit(0, false), Delete(0, key), Bump(0), written)
    ensures Follows(written, Store(0, key), VersionFails(1), Look(1, key), u)
    ensures |u.readers| == 2 && u.readers[1] == Returned(None, 1, Raw(s.commits), true)
    ensures u.bumped == [s.commits + 1] && !Good(u, u.readers[1])
  {
    loaded := LoadBeforeWrite(s, key);
    written := WriteWhileLoaded(loaded, key);
    u := StoreAfterWrite(written, key);
    assert u.bumped[0] == s.commits + 1;
  }

  lemma LoadBeforeWrite(s: System, key: Key) returns (t: System)
    requires s.bumped == [] && s.store == map[] && |s.readers| == 2 && s.readers[0] == Waiting
    ensures Follows(s, ReadVersion(0), Look(0, key), Load(0), t)
    ensures t == s.(readers := [Loaded(None, 0, s.commits), s.readers[1]])
  {
    t := s.(readers := [Versioned(None, 0), s.readers[1]]);
    assert Next(s, ReadVersion(0)) == t;
    t := s.(readers := [Missed(None, 0), s.readers[1]]);
    t := s.(readers := [Loaded(None, 0, s.commits), s.readers[1]]);
  }

  lemma WriteWhileLoaded(s: System, key: Key) returns (t: System)
    requires s.bumped == [] && |s.writers| == 1 && s.writers[0] == Resting
    ensures Follows(s, Commit(0, false), Delete(0, key), Bump(0), t)
    ensures t.bumped == [s.commits + 1] && t.readers == s.readers
  {
    t := Next(s, Commit(0, false));
    assert t.writers == [Committed(s.commits + 1)] && t.bumped == [] && t.readers == s.readers;
    t := Next(t, Delete(0, key));
    assert t.writers == [Deleted(s.commits + 1)] && t.bumped == [] && t.readers == s.readers;
    t := Next(t, Bump(0));
  }

  lemma StoreAfterWrite(s: System, key: Key) returns (t: System)
    requires |s.bumped| == 1 && |s.readers| == 2 && s.readers[0].Loaded? && s.readers[0].v == None && s.readers[1] == Waiting
    ensures Follows(s, Store(0, key), VersionFails(1), Look(1, key), t)
    ensures t.bumped == s.bumped && |t.readers| == 2 && t.readers[1] == Returned(None, 1, Raw(s.readers[0].stamp), true)
  {
    t := Next(s, Store(0, key));
    assert t.store[key] == Raw(s.readers[0].stamp) && t.readers[1] == Waiting && t.bumped == s.bumped;
    t := Next(t, VersionFails(1));
    assert t.readers[1] == Versioned(None, 1);
    t := Next(t, Look(1, key));
  }

  /** A read that has looked up the version returns a good quota in every continuation exactly when the look-up answered. */
  lemma ReadSafeIffVersioned(s: System, r: nat, w: nat, key: Key)
    requires Inv(s) && r < |s.readers| && s.readers[r].Versioned? && w < |s.writers| && s.writers[w].Resting?
    ensures s.readers[r].v.Some? <==> forall u :: Reaches(s, u) ==> r < |u.readers| && Good(u, u.readers[r])
  {
    if s.readers[r].v.Some? {
      forall u | Reaches(s, u) ensures r < |u.readers| && Good(u, u.readers[r]) {
        var steps :| UndisturbedRun(s, steps) && Run(s, steps) == u;
        InvRun(s, steps);
        VersionIsKept(s, steps, r);
        assert ReaderSound(u, u.readers[r]);
      }
    } else {
      var u := WrapperIsServed(s, r, w, key);
    }
  }
}
