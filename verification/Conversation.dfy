/**
 Turn indexes of a conversation: `reserve_turn_indexes` and `upsert_session` of the session
 repository and `bulk_insert_messages` of the message repository, one call at a time.
 */
module Conversation {
  import opened Common

  /** Turn index and content of a message; a missing or zero index makes the insert skip it. */
  datatype Message = Message(turn: Option<int>, content: nat)

  /** The session's `message_count`, absent before the session exists, and its stored messages by turn. */
  datatype State = State(count: Option<int>, messages: map<int, nat>)

  function Max(a: int, b: int): int { if a >= b then a else b }

  /** `max(turn_index)` over the stored messages, or 0 without any. */
  function MaxTurn(messages: map<int, nat>): (m: int)
    ensures messages == map[] ==> m == 0
    ensures messages != map[] ==> m in messages && forall t :: t in messages ==> t <= m
  {
    if messages == map[] then 0 else MaxIn(messages.Keys)
  }

  function MaxIn(s: set<int>): (m: int)
    requires s != {}
    ensures m in s && forall t :: t in s ==> t <= m
  {
    MaxExists(s);
    var m :| m in s && forall t :: t in s ==> t <= m;
    m
  }

  lemma {:induction false} MaxExists(s: set<int>)
    requires s != {}
    ensures exists m :: m in s && forall t :: t in s ==> t <= m
    decreases |s|
  {
    var x := Pick(s);
    var rest := s - {x};
    var top := x;
    if rest != {} {
      MaxExists(rest);
      var m :| m in rest && forall t :: t in rest ==> t <= m;
      top := Max(x, m);
    }
    forall t | t in s ensures t <= top { assert t == x || t in rest; }
    assert top in s;
  }

  function Or0(count: Option<int>): int { match count case Some(c) => c case None => 0 }

  /** `reserve_turn_indexes`. */
  function Reserved(s: State, count: int): (State, seq<int>) {
    if count <= 0 then (s, [])
    else if s.count.None? then (s.(count := Some(count)), Block(1, count))
    else
      var top := MaxTurn(s.messages);
      var base := Max(s.count.value, top);
      (s.(count := Some(base + count)), Block(base + 1, count))
  }

  /** `list(range(start, start + count))`. */
  function Block(start: int, count: nat): (b: seq<int>)
    ensures |b| == count && forall i :: 0 <= i < count ==> b[i] == start + i
  {
    seq(count, i requires 0 <= i => start + i)
  }

  /** `upsert_session` with an optional message count. */
  function Upserted(s: State, count: Option<int>): State {
    match s.count
    case None => s.(count := Some(Or0(count)))
    case Some(c) => match count case Some(n) => s.(count := Some(Max(c, n))) case None => s
  }

  /** `INSERT ... ON CONFLICT DO NOTHING`, row by row; counts the rows that went in. */
  function Inserted(messages: map<int, nat>, rows: seq<(int, nat)>): (map<int, nat>, nat) {
    if rows == [] then (messages, 0)
    else
      var (before, n) := Inserted(messages, rows[..|rows| - 1]);
      var (turn, content) := rows[|rows| - 1];
      if turn in before then (before, n) else (before[turn := content], n + 1)
  }

  /** The rows that `bulk_insert_messages` builds. */
  function Rows(batch: seq<Message>): seq<(int, nat)> {
    if batch == [] then []
    else
      var m := batch[|batch| - 1];
      Rows(batch[..|batch| - 1]) + if m.turn.Some? && m.turn.value != 0 then [(m.turn.value, m.content)] else []
  }

  /**
   `bulk_insert_messages`: nothing to insert is no error; otherwise the foreign key demands the
   session, and without it (`None`) the insert raises and stores nothing.
   */
  function Stored(s: State, batch: seq<Message>): (State, Option<nat>) {
    if Rows(batch) == [] then (s, Some(0))
    else if s.count.None? then (s, None)
    else
      var (messages, n) := Inserted(s.messages, Rows(batch));
      (s.(messages := messages), Some(n))
  }

  class ConversationStore {
    var count: Option<int>
    var messages: map<int, nat>

    ghost function Value(): State reads this { State(count, messages) }

    method ReserveTurnIndexes(n: int) returns (turns: seq<int>)
      modifies this
      ensures (Value(), turns) == Reserved(old(Value()), n)
    {
      if n <= 0 { return []; }
      var start := 1;
      if count.None? {
        count := Some(n);
      } else {
        var maxTurn := MaxTurn(messages);
        var base := Max(count.value, maxTurn);
        count := Some(base + n);
        start := base + 1;
      }
      return Block(start, n);
    }

    method UpsertSession(n: Option<int>)
      modifies this
      ensures Value() == Upserted(old(Value()), n)
    {
      if count.None? {
        count := Some(if n.Some? then n.value else 0);
      } else if n.Some? {
        count := Some(Max(count.value, n.value));
      }
    }

    method BulkInsertMessages(batch: seq<Message>) returns (r: Option<nat>)
      modifies this
      ensures (Value(), r) == Stored(old(Value()), batch)
    {
      var rows: seq<(int, nat)> := [];
      for i := 0 to |batch|
        invariant rows == Rows(batch[..i])
        invariant messages == old(messages) && count == old(count)
      {
        assert batch[..i + 1][..i] == batch[..i];
        if batch[i].turn.Some? && batch[i].turn.value != 0 {
          rows := rows + [(batch[i].turn.value, batch[i].content)];
        }
      }
      assert batch[..|batch|] == batch;
      if rows == [] { return Some(0); }
      if count.None? { return None; }
      var inserted := 0;
      for i := 0 to |rows|
        invariant (messages, inserted) == Inserted(old(messages), rows[..i])
        invariant count == old(count)
      {
        assert rows[..i + 1][..i] == rows[..i];
        if rows[i].0 !in messages {
          messages := messages[rows[i].0 := rows[i].1];
          inserted := inserted + 1;
        }
      }
      assert rows[..|rows|] == rows;
      return Some(inserted);
    }
  }

  // ---- histories ----

  datatype Op = Reserve(size: int) | Upsert(count: Option<int>) | Put(batch: seq<Message>)

  /** The state, the turns handed out so far in order, and how many messages inserts have dropped. */
  datatype History = History(state: State, handedOut: seq<int>, dropped: int)

  function Next(h: History, op: Op): History {
    match op
    case Reserve(n) => var (s, turns) := Reserved(h.state, n); h.(state := s, handedOut := h.handedOut + turns)
    case Upsert(n) => h.(state := Upserted(h.state, n))
    case Put(batch) =>
      var (s, n) := Stored(h.state, batch);
      if n.None? then h else h.(state := s, dropped := h.dropped + |batch| - n.value)
  }

  function Run(h: History, ops: seq<Op>): History {
    if ops == [] then h else Next(Run(h, ops[..|ops| - 1]), ops[|ops| - 1])
  }

  const NEW := History(State(None, map[]), [], 0)

  ghost predicate Inv(h: History) {
    && (h.state.count.None? ==> h.state.messages == map[] && h.handedOut == [])
    && (forall i :: 0 <= i < |h.handedOut| ==> h.handedOut[i] <= Or0(h.state.count))
    && (forall i, j :: 0 <= i < j < |h.handedOut| ==> h.handedOut[i] < h.handedOut[j])
  }

  lemma ReserveStep(h: History, n: int)
    requires Inv(h)
    ensures Inv(Next(h, Reserve(n)))
  {
  }

  /** Over every sequence of calls the reserved indexes increase strictly, so blocks are disjoint and none is handed out twice. */
  lemma {:induction false} ReservationsAscend(ops: seq<Op>)
    ensures Inv(Run(NEW, ops))
  {
    if ops != [] {
      ReservationsAscend(ops[..|ops| - 1]);
      if ops[|ops| - 1].Reserve? { ReserveStep(Run(NEW, ops[..|ops| - 1]), ops[|ops| - 1].size); }
    }
  }

  /** A reserved block is consecutive, above everything handed out before and above every stored turn, and ends at the new count. */
  lemma BlockAboveEverything(ops: seq<Op>, n: int)
    requires n > 0
    ensures var h := Run(NEW, ops);
            var (s, turns) := Reserved(h.state, n);
            && |turns| == n && s.count == Some(turns[n - 1])
            && (forall i :: 0 <= i < n ==> turns[i] == turns[0] + i)
            && (forall t :: t in h.state.messages ==> t < turns[0])
            && (forall t :: t in h.handedOut ==> t < turns[0])
  {
    ReservationsAscend(ops);
  }

  /**
   A reservation starts right above the larger of the count and the highest stored turn, at 1 for
   a new session, leaves no gap and ends at the new count; one that is not positive changes nothing.
   */
  lemma ReservationStart(s: State, n: int)
    ensures n <= 0 ==> Reserved(s, n) == (s, [])
    ensures n > 0 ==>
              var (s', turns) := Reserved(s, n);
              && |turns| == n && s'.messages == s.messages && s'.count == Some(turns[0] + n - 1)
              && (forall i :: 0 <= i < n ==> turns[i] == turns[0] + i)
              && (s.count.None? ==> turns[0] == 1)
              && (s.count.Some? ==>
                    && s.count.value < turns[0] && MaxTurn(s.messages) < turns[0]
                    && (turns[0] == s.count.value + 1 || turns[0] == MaxTurn(s.messages) + 1))
  {
  }

  /** A session that an upsert creates starts with the given count, or 0; an existing one keeps its count or takes a larger one. */
  lemma UpsertSetsCount(s: State, n: Option<int>)
    ensures Upserted(s, n).messages == s.messages
    ensures s.count.None? && n.None? ==> Upserted(s, n).count == Some(0)
    ensures s.count.None? && n.Some? ==> Upserted(s, n).count == n
    ensures s.count.Some? && n.None? ==> Upserted(s, n) == s
    ensures s.count.Some? && n.Some? ==>
              && Upserted(s, n).count.Some? && Upserted(s, n).count in {s.count, n}
              && s.count.value <= Upserted(s, n).count.value && n.value <= Upserted(s, n).count.value
  {
  }

  /** The rows of a batch are exactly its messages with an index that is present and not zero. */
  lemma {:induction false} RowsAreIndexed(batch: seq<Message>, t: int, c: nat)
    ensures (t, c) in Rows(batch) <==> t != 0 && Message(Some(t), c) in batch
    ensures |Rows(batch)| <= |batch|
  {
    if batch != [] {
      RowsAreIndexed(batch[..|batch| - 1], t, c);
      assert batch == batch[..|batch| - 1] + [batch[|batch| - 1]];
    }
  }

  /** `message_count` never decreases, a reservation raises it by at least its size, and an upsert lifts it to the given count. */
  lemma CountNeverDecreases(h: History, op: Op)
    requires h.state.count.Some?
    ensures Next(h, op).state.count.Some? && h.state.count.value <= Next(h, op).state.count.value
    ensures op.Reserve? ==> h.state.count.value + op.size <= Next(h, op).state.count.value
    ensures op.Upsert? && op.count.Some? ==>
              Next(h, op).state.count.value >= op.count.value && Next(h, op).state.count in {h.state.count, op.count}
  {
  }

  // ---- the conflict clause drops nothing that was reserved ----

  ghost predicate TurnsDistinct(rows: seq<(int, nat)>) {
    forall i, j :: 0 <= i < j < |rows| ==> rows[i].0 != rows[j].0
  }

  ghost predicate HasTurn(rows: seq<(int, nat)>, t: int) {
    exists i :: 0 <= i < |rows| && rows[i].0 == t
  }

  lemma HasTurnSnoc(rows: seq<(int, nat)>, t: int)
    requires rows != []
    ensures HasTurn(rows, t) <==> HasTurn(rows[..|rows| - 1], t) || t == rows[|rows| - 1].0
  {
  }

  /** After an insert exactly the old turns and those of its rows are stored. */
  lemma {:induction false} StoredTurns(messages: map<int, nat>, rows: seq<(int, nat)>, t: int)
    ensures t in Inserted(messages, rows).0 <==> t in messages || HasTurn(rows, t)
  {
    if rows != [] {
      StoredTurns(messages, rows[..|rows| - 1], t);
      HasTurnSnoc(rows, t);
    }
  }

  /** An insert drops no row exactly when its turns are new and different from each other. */
  lemma {:induction false} NothingDroppedIff(messages: map<int, nat>, rows: seq<(int, nat)>)
    ensures Inserted(messages, rows).1 <= |rows|
    ensures Inserted(messages, rows).1 == |rows| <==>
            TurnsDistinct(rows) && forall i :: 0 <= i < |rows| ==> rows[i].0 !in messages
  {
    if rows != [] {
      var n := |rows| - 1;
      var before := rows[..n];
      NothingDroppedIff(messages, before);
      StoredTurns(messages, before, rows[n].0);
      assert forall i :: 0 <= i < n ==> before[i] == rows[i];
      if HasTurn(before, rows[n].0) {
        var i :| 0 <= i < |before| && before[i].0 == rows[n].0;
        assert rows[i].0 == rows[n].0;
      } else {
        assert forall i :: 0 <= i < n ==> before[i].0 != rows[n].0;
      }
    }
  }

  /** A stored message is never overwritten, and a row that is not dropped is stored with its content. */
  lemma {:induction false} StoredAsGiven(messages: map<int, nat>, rows: seq<(int, nat)>)
    ensures forall t :: t in messages ==> t in Inserted(messages, rows).0 && Inserted(messages, rows).0[t] == messages[t]
    ensures Inserted(messages, rows).1 == |rows| ==>
              forall i :: 0 <= i < |rows| ==> rows[i].0 in Inserted(messages, rows).0 && Inserted(messages, rows).0[rows[i].0] == rows[i].1
  {
    if rows != [] {
      StoredAsGiven(messages, rows[..|rows| - 1]);
      NothingDroppedIff(messages, rows[..|rows| - 1]);
    }
  }

  /** The insert uses reserved turns only, none twice and none that an earlier insert used; counts are not negative. */
  ghost predicate UsesReserved(h: History, earlier: seq<Op>, op: Op) {
    match op
    case Reserve(_) => true
    case Upsert(n) => Or0(n) >= 0
    case Put(batch) =>
      && (forall i :: 0 <= i < |batch| ==> batch[i].turn.Some? && batch[i].turn.value in h.handedOut && !Used(earlier, batch[i].turn.value))
      && forall i, j :: 0 <= i < j < |batch| ==> batch[i].turn != batch[j].turn
  }

  /** An insert of this history used turn `t`. */
  ghost predicate Used(ops: seq<Op>, t: int) {
    ops != [] && (Used(ops[..|ops| - 1], t) || (ops[|ops| - 1].Put? && HasTurn(Rows(ops[|ops| - 1].batch), t)))
  }

  ghost predicate Disciplined(ops: seq<Op>) {
    ops == [] ||
    (Disciplined(ops[..|ops| - 1]) && UsesReserved(Run(NEW, ops[..|ops| - 1]), ops[..|ops| - 1], ops[|ops| - 1]))
  }

  lemma {:induction false} RowsOfNonZero(batch: seq<Message>)
    requires forall i :: 0 <= i < |batch| ==> batch[i].turn.Some? && batch[i].turn.value != 0
    ensures |Rows(batch)| == |batch| && forall i :: 0 <= i < |batch| ==> Rows(batch)[i] == (batch[i].turn.value, batch[i].content)
  {
    if batch != [] { RowsOfNonZero(batch[..|batch| - 1]); }
  }

  ghost predicate AllPositive(h: History) {
    && Or0(h.state.count) >= 0
    && (forall t :: t in h.handedOut ==> t >= 1)
    && (forall t :: t in h.state.messages ==> t in h.handedOut)
  }

  lemma ReserveStaysPositive(h: History, n: int)
    requires AllPositive(h)
    ensures AllPositive(Next(h, Reserve(n)))
  {
  }

  lemma StoredWithSession(s: State, batch: seq<Message>)
    requires s.count.Some? || Rows(batch) == []
    ensures var (messages, n) := Inserted(s.messages, Rows(batch));
            Stored(s, batch) == (s.(messages := messages), Some(n))
  {
  }

  lemma PutStaysPositive(h: History, earlier: seq<Op>, batch: seq<Message>)
    requires Inv(h) && AllPositive(h) && UsesReserved(h, earlier, Put(batch))
    requires forall t :: t in h.state.messages <==> Used(earlier, t)
    ensures AllPositive(Next(h, Put(batch)))
    ensures Next(h, Put(batch)).dropped == h.dropped
    ensures forall t :: t in Next(h, Put(batch)).state.messages <==> t in h.state.messages || HasTurn(Rows(batch), t)
  {
    RowsOfNonZero(batch);
    NothingDroppedIff(h.state.messages, Rows(batch));
    assert batch != [] ==> batch[0].turn.value in h.handedOut;
    StoredWithSession(h.state, batch);
    forall t ensures t in Inserted(h.state.messages, Rows(batch)).0 <==> t in h.state.messages || HasTurn(Rows(batch), t) {
      StoredTurns(h.state.messages, Rows(batch), t);
    }
  }

  /** Writers that insert only reserved indexes, each once, never lose a message: none is skipped, none dropped by the conflict clause. */
  lemma {:induction false} DisciplinedLosesNothing(ops: seq<Op>)
    requires Disciplined(ops)
    ensures Run(NEW, ops).dropped == 0 && AllPositive(Run(NEW, ops))
    ensures forall t :: t in Run(NEW, ops).state.messages <==> Used(ops, t)
  {
    if ops != [] {
      var before, op := ops[..|ops| - 1], ops[|ops| - 1];
      DisciplinedLosesNothing(before);
      ReservationsAscend(before);
      match op
      case Reserve(n) => ReserveStaysPositive(Run(NEW, before), n);
      case Upsert(_) =>
      case Put(batch) => PutStaysPositive(Run(NEW, before), before, batch);
    }
  }
}
