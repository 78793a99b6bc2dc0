/**
 Batch upserts of `ProviderModelRepository`.  The session does not flush before a lookup,
 so each lookup sees only the rows that were there before the batch.
 */
module ProviderModels {
  import opened Common

  datatype Field =
    | DisplayName | Weight | Priority | PricingConfig | LimitConfig | TokenizerConfig | RoutingConfig | ConfigOverride | IsActive
    | Source
    | Other(name: nat)

  type Value = nat
  const MANUAL: Value := 0

  predicate Protected(f: Field) { !f.Source? && !f.Other? }

  datatype Key = Key(modelId: Option<nat>, path: Option<nat>)

  datatype Row = Row(instance: nat, key: Key, fields: map<Field, Value>, syncedAt: int)

  /** A payload may lack the parts of its key: the first lookup that needs them fails. */
  datatype Payload = Payload(key: Key, fields: map<Field, Value>, syncedAt: Option<int>)

  /** `upsert_for_instance`, or `upsert_from_upstream` with its flag. */
  datatype Mode = ForInstance | FromUpstream(preserve: bool)

  predicate Complete(p: Payload) { p.key.modelId.Some? && p.key.path.Some? }

  // ---- removing duplicate payloads ----

  predicate HasKey(ps: seq<Payload>, k: Key) {
    exists i :: 0 <= i < |ps| && ps[i].key == k
  }

  function Deduped(ps: seq<Payload>): seq<Payload> {
    if ps == [] then []
    else
      var before, last := ps[..|ps| - 1], ps[|ps| - 1];
      if HasKey(before, last.key) then Deduped(before) else Deduped(before) + [last]
  }

  ghost predicate KeysDistinct(ps: seq<Payload>) {
    forall i, j :: 0 <= i < j < |ps| ==> ps[i].key != ps[j].key
  }

  /** `_dedupe_payloads`. */
  method DedupePayloads(ps: seq<Payload>) returns (deduped: seq<Payload>)
    ensures deduped == Deduped(ps)
  {
    var seen: set<Key> := {};
    deduped := [];
    for i := 0 to |ps|
      invariant forall k :: k in seen <==> HasKey(ps[..i], k)
      invariant deduped == Deduped(ps[..i])
    {
      assert ps[..i + 1][..i] == ps[..i];
      assert forall k :: HasKey(ps[..i + 1], k) <==> HasKey(ps[..i], k) || k == ps[i].key by {
        forall k ensures HasKey(ps[..i + 1], k) <==> HasKey(ps[..i], k) || k == ps[i].key { HasKeySnoc(ps[..i + 1], k); }
      }
      if ps[i].key !in seen {
        seen := seen + {ps[i].key};
        deduped := deduped + [ps[i]];
      }
    }
    assert ps[..|ps|] == ps;
  }

  lemma HasKeySnoc(ps: seq<Payload>, k: Key)
    requires ps != []
    ensures HasKey(ps, k) <==> HasKey(ps[..|ps| - 1], k) || k == ps[|ps| - 1].key
  {
  }

  /** The kept payloads have different keys and cover all keys. */
  lemma {:induction false} DedupedKeys(ps: seq<Payload>)
    ensures KeysDistinct(Deduped(ps))
    ensures forall k :: HasKey(Deduped(ps), k) <==> HasKey(ps, k)
  {
    if ps != [] {
      var before, d := ps[..|ps| - 1], Deduped(ps);
      DedupedKeys(before);
      forall k ensures HasKey(d, k) <==> HasKey(ps, k) {
        HasKeySnoc(ps, k);
        if d != Deduped(before) {
          HasKeySnoc(d, k);
          assert d[..|d| - 1] == Deduped(before);
        }
      }
      if d != Deduped(before) {
        var kept := Deduped(before);
        forall i | 0 <= i < |kept| ensures kept[i].key != ps[|ps| - 1].key {
          assert HasKey(kept, kept[i].key);
        }
      }
    }
  }

  /** Of several payloads with one key the first is kept. */
  lemma {:induction false} FirstIsKept(ps: seq<Payload>, i: nat)
    requires i < |ps| && !HasKey(ps[..i], ps[i].key)
    ensures ps[i] in Deduped(ps)
  {
    var before := ps[..|ps| - 1];
    if i < |before| {
      assert before[..i] == ps[..i];
      FirstIsKept(before, i);
    }
  }

  // ---- one payload ----

  function Merge(r: Row, p: Payload, mode: Mode, now: int): Row {
    match mode
    case ForInstance => r.(fields := r.fields + p.fields, syncedAt := now)
    case FromUpstream(preserve) =>
      if preserve && Source in r.fields && r.fields[Source] == MANUAL then r
      else
        var fields := if preserve then map f | f in p.fields && !Protected(f) :: p.fields[f] else p.fields;
        r.(fields := r.fields + fields, syncedAt := SyncTime(p, mode, now))
  }

  function SyncTime(p: Payload, mode: Mode, now: int): int {
    if mode.ForInstance? || p.syncedAt.None? then now else p.syncedAt.value
  }

  function Created(instance: nat, p: Payload, mode: Mode, now: int): Row {
    Row(instance, p.key, p.fields, SyncTime(p, mode, now))
  }

  /** The first of the `n` rows visible to a lookup that has this identity. */
  function Lookup(rows: seq<Row>, n: nat, instance: nat, k: Key): (r: Option<nat>)
    requires n <= |rows|
    ensures r.Some? ==> r.value < n && rows[r.value].instance == instance && rows[r.value].key == k
    ensures r.None? ==> forall i :: 0 <= i < n ==> !(rows[i].instance == instance && rows[i].key == k)
  {
    if n == 0 then None
    else
      match Lookup(rows, n - 1, instance, k)
      case Some(i) => Some(i)
      case None => if rows[n - 1].instance == instance && rows[n - 1].key == k then Some(n - 1) else None
  }

  function Apply(rows: seq<Row>, n: nat, instance: nat, p: Payload, mode: Mode, now: int): (r: seq<Row>)
    requires n <= |rows|
    ensures |rows| <= |r| <= |rows| + 1
  {
    match Lookup(rows, n, instance, p.key)
    case Some(i) => rows[i := Merge(rows[i], p, mode, now)]
    case None => rows + [Created(instance, p, mode, now)]
  }

  function Process(rows: seq<Row>, n: nat, instance: nat, ps: seq<Payload>, mode: Mode, now: int): (r: seq<Row>)
    requires n <= |rows|
    ensures |rows| <= |r|
  {
    if ps == [] then rows
    else Apply(Process(rows, n, instance, ps[..|ps| - 1], mode, now), n, instance, ps[|ps| - 1], mode, now)
  }

  /** The whole call; a payload without its key raises before anything is committed. */
  function Upserted(rows: seq<Row>, instance: nat, batch: seq<Payload>, mode: Mode, now: int): Result<seq<Row>, ()> {
    var ps := Deduped(batch);
    if forall i :: 0 <= i < |ps| ==> Complete(ps[i]) then Ok(Process(rows, |rows|, instance, ps, mode, now)) else Err(())
  }

  class ProviderModelTable {
    var rows: seq<Row>

    method Upsert(instance: nat, batch: seq<Payload>, mode: Mode, now: int) returns (ok: bool)
      modifies this
      ensures ok <==> Upserted(old(rows), instance, batch, mode, now).Ok?
      ensures rows == if ok then Upserted(old(rows), instance, batch, mode, now).value else old(rows)
    {
      var ps := DedupePayloads(batch);
      var session := rows;
      for i := 0 to |ps|
        invariant rows == old(rows) && |rows| <= |session|
        invariant forall j :: 0 <= j < i ==> Complete(ps[j])
        invariant session == Process(rows, |rows|, instance, ps[..i], mode, now)
      {
        assert ps[..i + 1][..i] == ps[..i];
        if ps[i].key.modelId.None? || ps[i].key.path.None? {
          assert !Complete(ps[i]);
          return false;
        }
        var found := Lookup(session, |rows|, instance, ps[i].key);
        if found.Some? {
          session := session[found.value := Merge(session[found.value], ps[i], mode, now)];
        } else {
          session := session + [Created(instance, ps[i], mode, now)];
        }
      }
      assert ps[..|ps|] == ps;
      rows := session;
      return true;
    }
  }

  // ---- the identity stays unique ----

  ghost predicate SameIdentity(a: Row, b: Row) { a.instance == b.instance && a.key == b.key }

  ghost predicate Unique(rows: seq<Row>) {
    forall i, j :: 0 <= i < j < |rows| ==> !SameIdentity(rows[i], rows[j])
  }

  /** Rows that the batch added carry the keys of its payloads; the others keep their identity. */
  ghost predicate Grown(rows: seq<Row>, r: seq<Row>, instance: nat, ps: seq<Payload>) {
    && |rows| <= |r|
    && (forall i :: 0 <= i < |rows| ==> SameIdentity(rows[i], r[i]))
    && forall i :: |rows| <= i < |r| ==> r[i].instance == instance && HasKey(ps, r[i].key)
  }

  /** Even though no lookup sees the rows of its own batch, the identity stays unique. */
  lemma {:induction false} ProcessKeepsUnique(rows: seq<Row>, instance: nat, ps: seq<Payload>, mode: Mode, now: int)
    requires Unique(rows) && KeysDistinct(ps)
    ensures Unique(Process(rows, |rows|, instance, ps, mode, now))
    ensures Grown(rows, Process(rows, |rows|, instance, ps, mode, now), instance, ps)
  {
    if ps != [] {
      var before, p := ps[..|ps| - 1], ps[|ps| - 1];
      ProcessKeepsUnique(rows, instance, before, mode, now);
      var mid := Process(rows, |rows|, instance, before, mode, now);
      var r := Apply(mid, |rows|, instance, p, mode, now);
      assert !HasKey(before, p.key);
      forall k ensures HasKey(ps, k) <==> HasKey(before, k) || k == p.key { HasKeySnoc(ps, k); }
      assert forall i :: 0 <= i < |mid| ==> SameIdentity(mid[i], r[i]);
    }
  }

  /** For every batch, duplicates included, upsert keeps (instance, model_id, upstream_path) unique. */
  lemma UpsertKeepsUnique(rows: seq<Row>, instance: nat, batch: seq<Payload>, mode: Mode, now: int)
    requires Unique(rows) && Upserted(rows, instance, batch, mode, now).Ok?
    ensures Unique(Upserted(rows, instance, batch, mode, now).value)
  {
    DedupedKeys(batch);
    ProcessKeepsUnique(rows, instance, Deduped(batch), mode, now);
  }

  /** Without the deduplication one repeated payload would be inserted twice. */
  lemma WithoutDedupeNotUnique(instance: nat, p: Payload, mode: Mode, now: int)
    ensures !Unique(Process([], 0, instance, [p, p], mode, now))
  {
    var c := Created(instance, p, mode, now);
    assert [p, p][..1] == [p] && [p][..0] == [];
    assert Process([], 0, instance, [], mode, now) == [];
    assert Process([], 0, instance, [p], mode, now) == [c];
    assert Process([], 0, instance, [p, p], mode, now) == [c, c];
    assert SameIdentity([c, c][0], [c, c][1]);
  }

  // ---- what a batch leaves in the table ----

  /** The mode leaves this field of an existing row alone. */
  ghost predicate Spares(mode: Mode, f: Field) {
    mode == FromUpstream(true) &&
    f in {DisplayName, Weight, Priority, PricingConfig, LimitConfig, TokenizerConfig, RoutingConfig, ConfigOverride, IsActive}
  }

  /** How payload `p` shows in a row: field by field, on top of the row that was there before, if any. */
  ghost predicate Reflects(before: Option<Row>, r: Row, p: Payload, mode: Mode, now: int) {
    if before.Some? && mode == FromUpstream(true) && Source in before.value.fields && before.value.fields[Source] == MANUAL then
      r == before.value
    else
      && r.syncedAt == (if mode.FromUpstream? && p.syncedAt.Some? then p.syncedAt.value else now)
      && forall f ::
           var given := f in p.fields && !(before.Some? && Spares(mode, f));
           && (f in r.fields <==> given || (before.Some? && f in before.value.fields))
           && (f in r.fields ==> r.fields[f] == if given then p.fields[f] else before.value.fields[f])
  }

  lemma MergeReflects(r: Row, p: Payload, mode: Mode, now: int)
    ensures Reflects(Some(r), Merge(r, p, mode, now), p, mode, now)
    ensures Reflects(None, Created(r.instance, p, mode, now), p, mode, now)
  {
  }

  /** Rows of other instances, and rows whose key is not in the batch, are left as they were. */
  lemma {:induction false} OthersUntouched(rows: seq<Row>, instance: nat, ps: seq<Payload>, mode: Mode, now: int, i: nat)
    requires i < |rows| && !(rows[i].instance == instance && HasKey(ps, rows[i].key))
    ensures Process(rows, |rows|, instance, ps, mode, now)[i] == rows[i]
  {
    if ps != [] {
      HasKeySnoc(ps, rows[i].key);
      OthersUntouched(rows, instance, ps[..|ps| - 1], mode, now, i);
    }
  }

  /** Every payload of the batch ends up in exactly the row of its identity, old or new, as the mode prescribes. */
  lemma {:induction false} ProcessReflects(rows: seq<Row>, instance: nat, ps: seq<Payload>, mode: Mode, now: int, k: nat) returns (i: nat)
    requires Unique(rows) && KeysDistinct(ps) && k < |ps|
    ensures var r := Process(rows, |rows|, instance, ps, mode, now);
            && i < |r| && r[i].instance == instance && r[i].key == ps[k].key
            && Reflects(if i < |rows| then Some(rows[i]) else None, r[i], ps[k], mode, now)
  {
    var before, p := ps[..|ps| - 1], ps[|ps| - 1];
    var mid := Process(rows, |rows|, instance, before, mode, now);
    var found := Lookup(mid, |rows|, instance, p.key);
    if k == |before| {
      ProcessKeepsUnique(rows, instance, before, mode, now);
      i := if found.Some? then found.value else |mid|;
      MergeReflects(if found.Some? then mid[i] else Created(instance, p, mode, now), p, mode, now);
      if found.Some? {
        assert SameIdentity(rows[i], mid[i]);
        assert !HasKey(before, p.key);
        OthersUntouched(rows, instance, before, mode, now, i);
      }
    } else {
      i := ProcessReflects(rows, instance, before, mode, now, k);
      assert before[k].key != p.key;
    }
  }

  /** So after an upsert the first payload of each key shows in the row of its identity. */
  lemma UpsertReflects(rows: seq<Row>, instance: nat, batch: seq<Payload>, mode: Mode, now: int, k: nat) returns (i: nat)
    requires Unique(rows) && Upserted(rows, instance, batch, mode, now).Ok?
    requires k < |batch| && !HasKey(batch[..k], batch[k].key)
    ensures var r := Upserted(rows, instance, batch, mode, now).value;
            && i < |r| && r[i].instance == instance && r[i].key == batch[k].key
            && Reflects(if i < |rows| then Some(rows[i]) else None, r[i], batch[k], mode, now)
  {
    DedupedKeys(batch);
    FirstIsKept(batch, k);
    var j :| 0 <= j < |Deduped(batch)| && Deduped(batch)[j] == batch[k];
    i := ProcessReflects(rows, instance, Deduped(batch), mode, now, j);
  }

  // ---- what upstream sync may not touch ----

  ghost predicate ProtectedKept(a: Row, b: Row) {
    && (Source in a.fields && a.fields[Source] == MANUAL ==> b == a)
    && forall f :: f in {DisplayName, Weight, Priority, PricingConfig, LimitConfig, TokenizerConfig, RoutingConfig, ConfigOverride, IsActive} ==>
         (f in a.fields <==> f in b.fields) && (f in a.fields ==> b.fields[f] == a.fields[f])
  }

  /** With overrides preserved, upstream sync leaves manual rows and the protected fields of existing rows unchanged. */
  lemma {:induction false} OverridesPreserved(rows: seq<Row>, n: nat, instance: nat, ps: seq<Payload>, now: int)
    requires n <= |rows|
    ensures forall i :: 0 <= i < n ==> ProtectedKept(rows[i], Process(rows, n, instance, ps, FromUpstream(true), now)[i])
  {
    if ps != [] {
      OverridesPreserved(rows, n, instance, ps[..|ps| - 1], now);
    }
  }

  // ---- repeating a batch ----

  ghost predicate SameButSync(a: Row, b: Row) { a.(syncedAt := b.syncedAt) == b }

  ghost predicate AllSameButSync(a: seq<Row>, b: seq<Row>) {
    |a| == |b| && forall i :: 0 <= i < |a| ==> SameButSync(a[i], b[i])
  }

  /** Some row carries this payload already: merging it again changes at most the sync time. */
  ghost predicate Absorbed(rows: seq<Row>, instance: nat, p: Payload, mode: Mode, i: nat) {
    && i < |rows| && rows[i].instance == instance && rows[i].key == p.key
    && forall now :: SameButSync(rows[i], Merge(rows[i], p, mode, now))
  }

  ghost predicate Carried(rows: seq<Row>, instance: nat, p: Payload, mode: Mode) {
    exists i :: Absorbed(rows, instance, p, mode, i)
  }

  lemma MergeAbsorbs(r: Row, p: Payload, mode: Mode, t: int, now: int)
    ensures SameButSync(Merge(r, p, mode, t), Merge(Merge(r, p, mode, t), p, mode, now))
    ensures SameButSync(Created(r.instance, p, mode, t), Merge(Created(r.instance, p, mode, t), p, mode, now))
  {
  }

  lemma {:induction false} ProcessAbsorbs(rows: seq<Row>, instance: nat, ps: seq<Payload>, mode: Mode, t: int, k: nat) returns (i: nat)
    requires Unique(rows) && KeysDistinct(ps) && k < |ps|
    ensures Absorbed(Process(rows, |rows|, instance, ps, mode, t), instance, ps[k], mode, i)
  {
    var before, p := ps[..|ps| - 1], ps[|ps| - 1];
    var mid := Process(rows, |rows|, instance, before, mode, t);
    var found := Lookup(mid, |rows|, instance, p.key);
    if k == |before| {
      i := if found.Some? then found.value else |mid|;
      forall now ensures SameButSync(Process(rows, |rows|, instance, ps, mode, t)[i], Merge(Process(rows, |rows|, instance, ps, mode, t)[i], p, mode, now)) {
        MergeAbsorbs(if found.Some? then mid[i] else Created(instance, p, mode, t), p, mode, t, now);
      }
    } else {
      i := ProcessAbsorbs(rows, instance, before, mode, t, k);
      assert before[k].key != p.key;
    }
  }

  /** Applying an absorbed payload to rows that differ in sync times only changes sync times only. */
  lemma ReapplyAbsorbed(rows: seq<Row>, r: seq<Row>, instance: nat, p: Payload, mode: Mode, now: int, i: nat)
    requires Unique(rows) && AllSameButSync(rows, r) && Absorbed(rows, instance, p, mode, i)
    ensures AllSameButSync(rows, Apply(r, |r|, instance, p, mode, now))
  {
    assert SameButSync(rows[i], r[i]);
    var j := Lookup(r, |r|, instance, p.key).value;
    assert SameButSync(rows[j], r[j]) && SameIdentity(rows[i], rows[j]);
    assert i == j;
    assert SameButSync(rows[i], Merge(rows[i], p, mode, now));
  }

  lemma {:induction false} ReprocessAbsorbed(rows: seq<Row>, instance: nat, ps: seq<Payload>, mode: Mode, now: int)
    requires Unique(rows)
    requires forall k :: 0 <= k < |ps| ==> Carried(rows, instance, ps[k], mode)
    ensures AllSameButSync(rows, Process(rows, |rows|, instance, ps, mode, now))
  {
    if ps != [] {
      var before, p := ps[..|ps| - 1], ps[|ps| - 1];
      assert forall k :: 0 <= k < |before| ==> before[k] == ps[k];
      ReprocessAbsorbed(rows, instance, before, mode, now);
      var i :| Absorbed(rows, instance, ps[|ps| - 1], mode, i);
      ReapplyAbsorbed(rows, Process(rows, |rows|, instance, before, mode, now), instance, p, mode, now, i);
    }
  }

  /** Repeating the same batch, in the same mode, changes nothing but sync times. */
  lemma UpsertIdempotent(rows: seq<Row>, instance: nat, batch: seq<Payload>, mode: Mode, t: int, now: int)
    requires Unique(rows) && Upserted(rows, instance, batch, mode, t).Ok?
    ensures var once := Upserted(rows, instance, batch, mode, t).value;
            var twice := Upserted(once, instance, batch, mode, now);
            twice.Ok? && AllSameButSync(once, twice.value)
  {
    var ps := Deduped(batch);
    DedupedKeys(batch);
    UpsertKeepsUnique(rows, instance, batch, mode, t);
    var once := Process(rows, |rows|, instance, ps, mode, t);
    forall k | 0 <= k < |ps| ensures Carried(once, instance, ps[k], mode) {
      var i := ProcessAbsorbs(rows, instance, ps, mode, t, k);
    }
    ReprocessAbsorbed(once, instance, ps, mode, now);
  }
}
