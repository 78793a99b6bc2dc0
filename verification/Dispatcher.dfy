/**
 The transaction-aware dispatcher of `TransactionAwareCelery`: tasks wait until the
 session commits.  Hooks are registered when the list was empty, fire once, and those of
 the other outcome stay behind and pile up.
 */
module Dispatcher {

  /** A queued task; the tag tells one enqueue from another. */
  type Task = nat

  class Scheduler {
    var pending: seq<Task>
    var commitHooks: nat
    var rollbackHooks: nat
    var sent: seq<Task>

    ghost predicate Valid() reads this {
      pending != [] ==> commitHooks > 0 && rollbackHooks > 0
    }

    ghost function Value(): State reads this { State(pending, commitHooks, rollbackHooks, sent) }

    constructor ()
      ensures Valid() && Value() == EMPTY
    {
      pending, commitHooks, rollbackHooks, sent := [], 0, 0, [];
    }

    /** `delay_after_commit` and `apply_async_after_commit`. */
    method Enqueue(task: Task, broker: bool)
      requires Valid()
      modifies this
      ensures Valid()
      ensures Value() == if broker then Enqueued(old(Value()), task) else old(Value())
    {
      if !broker { return; }
      pending := pending + [task];
      if |pending| == 1 {
        commitHooks := commitHooks + 1;
        rollbackHooks := rollbackHooks + 1;
      }
    }

    /** The session commits: every registered commit hook fires, the first one finds the tasks. */
    method Commit(broker: bool)
      requires Valid()
      modifies this
      ensures Valid()
      ensures Value() == if broker then Committed(old(Value())) else State([], 0, old(rollbackHooks), old(sent))
    {
      while commitHooks > 0
        invariant Valid() && rollbackHooks == old(rollbackHooks)
        invariant broker ==> Committed(Value()) == Committed(old(Value()))
        invariant !broker ==> sent == old(sent)
        decreases commitHooks
      {
        ghost var before := Value();
        commitHooks := commitHooks - 1;
        if broker {
          for i := 0 to |pending|
            modifies this`sent
            invariant sent == before.sent + pending[..i]
          {
            sent := sent + [pending[i]];
          }
        }
        pending := [];
        assert broker ==> Value() == CommitHook(before);
      }
    }

    /** The session rolls back: the waiting tasks are dropped. */
    method Rollback()
      requires Valid()
      modifies this
      ensures Valid()
      ensures Value() == RolledBack(old(Value()))
    {
      while rollbackHooks > 0
        decreases rollbackHooks
        invariant commitHooks == old(commitHooks) && sent == old(sent)
        invariant pending == [] || (pending == old(pending) && rollbackHooks == old(rollbackHooks))
      {
        rollbackHooks := rollbackHooks - 1;
        if pending != [] { pending := []; }
      }
    }
  }

  // ---- the same operations on values, hook by hook ----

  datatype State = State(pending: seq<Task>, commitHooks: nat, rollbackHooks: nat, sent: seq<Task>)

  const EMPTY := State([], 0, 0, [])

  function Enqueued(s: State, task: Task): State {
    var extra := if s.pending == [] then 1 else 0;
    State(s.pending + [task], s.commitHooks + extra, s.rollbackHooks + extra, s.sent)
  }

  /** One commit hook: hands over what it finds and clears the list. */
  function CommitHook(s: State): State
    requires s.commitHooks > 0
  {
    State([], s.commitHooks - 1, s.rollbackHooks, s.sent + s.pending)
  }

  function Committed(s: State): State
    decreases s.commitHooks
  {
    if s.commitHooks == 0 then s else Committed(CommitHook(s))
  }

  function RolledBack(s: State): State {
    if s.rollbackHooks == 0 then s else State([], s.commitHooks, 0, s.sent)
  }

  // ---- whole histories ----

  datatype Event = Queue(task: Task) | Commits | RollsBack

  function Next(s: State, e: Event): State {
    match e
    case Queue(t) => Enqueued(s, t)
    case Commits => Committed(s)
    case RollsBack => RolledBack(s)
  }

  function Run(events: seq<Event>): State {
    if events == [] then EMPTY else Next(Run(events[..|events| - 1]), events[|events| - 1])
  }

  /** The tasks queued since the last commit or rollback, in order. */
  function Open(events: seq<Event>): seq<Task> {
    if events == [] then []
    else
      match events[|events| - 1]
      case Queue(t) => Open(events[..|events| - 1]) + [t]
      case _ => []
  }

  /** The tasks that should have been handed over: at every commit, those queued since the previous outcome. */
  function Due(events: seq<Event>): seq<Task> {
    if events == [] then []
    else
      var before := events[..|events| - 1];
      if events[|events| - 1].Commits? then Due(before) + Open(before) else Due(before)
  }

  lemma {:induction false} CommitHandsOver(s: State)
    requires s.pending != [] ==> s.commitHooks > 0
    ensures Committed(s) == State([], 0, s.rollbackHooks, s.sent + s.pending)
    decreases s.commitHooks
  {
    if s.commitHooks > 0 { CommitHandsOver(CommitHook(s)); }
  }

  /**
   In every history the tasks handed over are exactly those queued since the outcome before
   each commit, in order and once each, however many stale hooks have piled up.
   */
  lemma {:induction false} HandedOverExactly(events: seq<Event>)
    ensures var s := Run(events);
            && s.sent == Due(events) && s.pending == Open(events)
            && (s.pending != [] ==> s.commitHooks > 0 && s.rollbackHooks > 0)
  {
    if events != [] {
      HandedOverExactly(events[..|events| - 1]);
      CommitHandsOver(Run(events[..|events| - 1]));
    }
  }

  /** How often a task was queued. */
  function Queued(events: seq<Event>, t: Task): nat {
    if events == [] then 0 else Queued(events[..|events| - 1], t) + if events[|events| - 1] == Queue(t) then 1 else 0
  }

  function Times(tasks: seq<Task>, t: Task): nat {
    if tasks == [] then 0 else Times(tasks[..|tasks| - 1], t) + if tasks[|tasks| - 1] == t then 1 else 0
  }

  lemma {:induction false} TimesConcat(a: seq<Task>, b: seq<Task>, t: Task)
    ensures Times(a + b, t) == Times(a, t) + Times(b, t)
  {
    if b == [] {
      assert a + b == a;
    } else {
      TimesConcat(a, b[..|b| - 1], t);
      assert (a + b)[..|a + b| - 1] == a + b[..|b| - 1];
    }
  }

  lemma TimesOne(task: Task, t: Task)
    ensures Times([task], t) == if task == t then 1 else 0
  {
  }

  lemma {:induction false} DueAtMostQueued(events: seq<Event>, t: Task)
    ensures Times(Due(events), t) + Times(Open(events), t) <= Queued(events, t)
  {
    if events != [] {
      var before := events[..|events| - 1];
      DueAtMostQueued(before, t);
      match events[|events| - 1]
      case Queue(task) =>
        TimesConcat(Open(before), [task], t);
        TimesOne(task, t);
      case Commits => TimesConcat(Due(before), Open(before), t);
      case RollsBack =>
    }
  }

  /** No task is handed over more often than it was queued, and none that still waits has been. */
  lemma AtMostOnce(events: seq<Event>, t: Task)
    ensures Times(Run(events).sent, t) + Times(Run(events).pending, t) <= Queued(events, t)
  {
    HandedOverExactly(events);
    DueAtMostQueued(events, t);
  }
}
