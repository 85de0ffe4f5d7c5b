/** Per-key advisory locks taken over pooled database sessions: connections for locks and connections for
    queries come from two pools, or, for comparison, from one. */
module AdvisoryLock {
  import opened CommentTypes

  datatype Pools = Separate(lockMax: nat, queryMax: nat) | Shared(max: nat)

  /** Where a task stands: a locked one waits for a lock connection, then for the lock, then runs its queries
      one connection at a time, unlocks and gives the connection back. */
  datatype Phase = Idle | Queued | Connected | Running | Querying | Unlocked | Done
  {
    predicate HoldsConnection() { Connected? || Running? || Querying? || Unlocked? }
    predicate Inside() { Running? || Querying? }
  }

  /** key is None for work outside any lock; queries are still to do. */
  datatype Task = Task(key: Option<string>, queries: nat, phase: Phase)

  /** locks is the server's table: lock number to holding task. */
  datatype State = State(tasks: seq<Task>, locks: map<int, nat>)

  datatype Action = Begin | Acquire | Lock | TakeQuery | GiveQuery | Abandon | Unlock | Release | Finish | Cancel

  function LockConnections(s: State): set<nat> {
    set i | 0 <= i < |s.tasks| && s.tasks[i].key.Some? && s.tasks[i].phase.HoldsConnection()
  }

  function QueryConnections(s: State): set<nat> {
    set i | 0 <= i < |s.tasks| && s.tasks[i].phase.Querying?
  }

  predicate LockPoolFree(c: Pools, s: State) {
    if c.Separate? then |LockConnections(s)| < c.lockMax else |LockConnections(s)| + |QueryConnections(s)| < c.max
  }

  predicate QueryPoolFree(c: Pools, s: State) {
    if c.Separate? then |QueryConnections(s)| < c.queryMax else |LockConnections(s)| + |QueryConnections(s)| < c.max
  }

  /** idOf is the hash of a key to a lock number; two keys may share one. */
  predicate Enabled(c: Pools, idOf: string -> int, s: State, i: nat, a: Action) {
    i < |s.tasks| &&
    var t := s.tasks[i];
    match a
    case Begin => t.phase.Idle?
    case Acquire => t.phase.Queued? && t.key.Some? && LockPoolFree(c, s)
    case Lock => t.phase.Connected? && t.key.Some? && idOf(t.key.value) !in s.locks
    case TakeQuery => t.phase.Running? && t.queries > 0 && QueryPoolFree(c, s)
    case GiveQuery => t.phase.Querying? && t.queries > 0
    case Abandon => t.phase.Running? && t.queries > 0
    case Unlock => t.phase.Running? && t.queries == 0 && t.key.Some?
    case Release => t.phase.Unlocked?
    case Finish => t.phase.Running? && t.queries == 0 && t.key.None?
    case Cancel => t.phase.Idle? || t.phase.Queued? || t.phase.Connected?
  }

  function Moved(s: State, i: nat, t: Task): State
    requires i < |s.tasks|
  {
    s.(tasks := s.tasks[i := t])
  }

  function Do(c: Pools, idOf: string -> int, s: State, i: nat, a: Action): State
    requires Enabled(c, idOf, s, i, a)
  {
    var t := s.tasks[i];
    match a
    case Begin => Moved(s, i, t.(phase := if t.key.Some? then Queued else Running))
    case Acquire => Moved(s, i, t.(phase := Connected))
    case Lock => Moved(s, i, t.(phase := Running)).(locks := s.locks[idOf(t.key.value) := i])
    case TakeQuery => Moved(s, i, t.(phase := Querying))
    case GiveQuery => Moved(s, i, t.(phase := Running, queries := t.queries - 1))
    case Abandon => Moved(s, i, t.(queries := 0))
    case Unlock => Moved(s, i, t.(phase := Unlocked)).(locks := s.locks - {idOf(t.key.value)})
    case Release => Moved(s, i, t.(phase := Done))
    case Finish => Moved(s, i, t.(phase := Done))
    case Cancel => Moved(s, i, t.(phase := Done))
  }

  predicate Initial(s: State) {
    s.locks == map[] && forall i :: 0 <= i < |s.tasks| ==> s.tasks[i].phase.Idle?
  }

  type Schedule = seq<(nat, Action)>

  predicate Runs(c: Pools, idOf: string -> int, s: State, run: Schedule)
    decreases |run|, 0
  {
    run == [] || (Runs(c, idOf, s, run[..|run| - 1]) &&
                  Enabled(c, idOf, End(c, idOf, s, run[..|run| - 1]), run[|run| - 1].0, run[|run| - 1].1))
  }

  function End(c: Pools, idOf: string -> int, s: State, run: Schedule): State
    requires Runs(c, idOf, s, run)
    decreases |run|, 1
  {
    if run == [] then s else Do(c, idOf, End(c, idOf, s, run[..|run| - 1]), run[|run| - 1].0, run[|run| - 1].1)
  }

  // ---------------------------------------------------------------- one holder per lock

  /** A task inside the lock on a number is the one in the server's table, and everyone in the table is inside. */
  predicate LocksInv(idOf: string -> int, s: State) {
    && (forall i :: 0 <= i < |s.tasks| && s.tasks[i].key.Some? && s.tasks[i].phase.Inside() ==>
          idOf(s.tasks[i].key.value) in s.locks && s.locks[idOf(s.tasks[i].key.value)] == i)
    && (forall id :: id in s.locks ==>
          s.locks[id] < |s.tasks| && s.tasks[s.locks[id]].key.Some? && s.tasks[s.locks[id]].phase.Inside()
          && idOf(s.tasks[s.locks[id]].key.value) == id)
  }

  /** A task without a key never waits for a lock, and a query connection means a query to do. */
  predicate TasksInv(s: State) {
    forall i :: 0 <= i < |s.tasks| ==>
      (s.tasks[i].key.None? ==>
         !s.tasks[i].phase.Queued? && !s.tasks[i].phase.Connected? && !s.tasks[i].phase.Unlocked?)
      && (s.tasks[i].phase.Querying? ==> s.tasks[i].queries > 0)
  }

  /** No pool lends more than it has. */
  predicate PoolsInv(c: Pools, s: State) {
    if c.Separate? then |LockConnections(s)| <= c.lockMax && |QueryConnections(s)| <= c.queryMax
    else |LockConnections(s)| + |QueryConnections(s)| <= c.max
  }

  lemma StepLocks(c: Pools, idOf: string -> int, s: State, i: nat, a: Action)
    requires LocksInv(idOf, s) && Enabled(c, idOf, s, i, a)
    ensures LocksInv(idOf, Do(c, idOf, s, i, a))
  {
  }

  lemma StepTasks(c: Pools, idOf: string -> int, s: State, i: nat, a: Action)
    requires TasksInv(s) && Enabled(c, idOf, s, i, a)
    ensures TasksInv(Do(c, idOf, s, i, a))
  {
  }

  lemma ConnectionsMove(s: State, s': State, i: nat)
    requires i < |s.tasks| && |s'.tasks| == |s.tasks| && s'.tasks == s.tasks[i := s'.tasks[i]]
    requires s'.tasks[i].key == s.tasks[i].key
    ensures LockConnections(s') == if s'.tasks[i].key.Some? && s'.tasks[i].phase.HoldsConnection()
                                   then LockConnections(s) + {i} else LockConnections(s) - {i}
    ensures QueryConnections(s') ==
      if s'.tasks[i].phase.Querying? then QueryConnections(s) + {i} else QueryConnections(s) - {i}
    ensures i in LockConnections(s) <==> s.tasks[i].key.Some? && s.tasks[i].phase.HoldsConnection()
    ensures i in QueryConnections(s) <==> s.tasks[i].phase.Querying?
  {
  }

  lemma StepPools(c: Pools, idOf: string -> int, s: State, i: nat, a: Action)
    requires TasksInv(s) && PoolsInv(c, s) && Enabled(c, idOf, s, i, a)
    ensures PoolsInv(c, Do(c, idOf, s, i, a))
  {
    ConnectionsMove(s, Do(c, idOf, s, i, a), i);
  }

  lemma {:induction false} RunInv(c: Pools, idOf: string -> int, s: State, run: Schedule)
    requires Initial(s) && Runs(c, idOf, s, run)
    ensures LocksInv(idOf, End(c, idOf, s, run)) && TasksInv(End(c, idOf, s, run)) && PoolsInv(c, End(c, idOf, s, run))
  {
    if run == [] {
      assert LockConnections(s) == {} && QueryConnections(s) == {};
    } else {
      var mid, last := End(c, idOf, s, run[..|run| - 1]), run[|run| - 1];
      RunInv(c, idOf, s, run[..|run| - 1]);
      StepLocks(c, idOf, mid, last.0, last.1);
      StepTasks(c, idOf, mid, last.0, last.1);
      StepPools(c, idOf, mid, last.0, last.1);
    }
  }

  /** At most one task is inside the lock on a key at any time, under either arrangement of the pools. */
  lemma OneHolderPerKey(c: Pools, idOf: string -> int, s: State, run: Schedule, i: nat, j: nat)
    requires Initial(s) && Runs(c, idOf, s, run)
    requires i < |s.tasks| && j < |s.tasks| && i != j && s.tasks[i].key == s.tasks[j].key && s.tasks[i].key.Some?
    ensures |End(c, idOf, s, run).tasks| == |s.tasks|
    ensures !(End(c, idOf, s, run).tasks[i].phase.Inside() && End(c, idOf, s, run).tasks[j].phase.Inside())
  {
    RunInv(c, idOf, s, run);
    KeysStay(c, idOf, s, run);
  }

  lemma {:induction false} KeysStay(c: Pools, idOf: string -> int, s: State, run: Schedule)
    requires Runs(c, idOf, s, run)
    ensures |End(c, idOf, s, run).tasks| == |s.tasks|
    ensures forall i :: 0 <= i < |s.tasks| ==> End(c, idOf, s, run).tasks[i].key == s.tasks[i].key
  {
    if run != [] {
      KeysStay(c, idOf, s, run[..|run| - 1]);
    }
  }

  // ---------------------------------------------------------------- two pools: everyone finishes

  predicate Pending(s: State) {
    exists i :: 0 <= i < |s.tasks| && !s.tasks[i].phase.Done?
  }

  /** A step that is work, not a caller giving up or a query failing. */
  predicate CanWork(c: Pools, idOf: string -> int, s: State, i: nat, a: Action) {
    Enabled(c, idOf, s, i, a) && !a.Cancel? && !a.Abandon?
  }

  lemma NobodyInside(idOf: string -> int, s: State, id: int)
    requires LocksInv(idOf, s)
    requires forall k :: 0 <= k < |s.tasks| ==> !s.tasks[k].phase.Inside()
    ensures id !in s.locks
  {
  }

  /** Without any task inside, waiting tasks go on. */
  lemma WaitersGoOn(c: Pools, idOf: string -> int, s: State, i: nat) returns (j: nat, a: Action)
    requires c.Separate? && c.lockMax > 0 && LocksInv(idOf, s) && TasksInv(s)
    requires i < |s.tasks| && (s.tasks[i].phase.Queued? || s.tasks[i].phase.Connected?)
    requires forall k :: 0 <= k < |s.tasks| ==> !s.tasks[k].phase.Inside() && !s.tasks[k].phase.Unlocked?
    ensures CanWork(c, idOf, s, j, a)
  {
    if k :| 0 <= k < |s.tasks| && s.tasks[k].phase.Connected? {
      NobodyInside(idOf, s, idOf(s.tasks[k].key.value));
      j, a := k, Lock;
    } else {
      assert LockConnections(s) == {};
      j, a := i, Acquire;
    }
  }

  lemma SomeoneCanWork(c: Pools, idOf: string -> int, s: State, i: nat) returns (j: nat, a: Action)
    requires c.Separate? && c.lockMax > 0 && c.queryMax > 0 && LocksInv(idOf, s) && TasksInv(s)
    requires i < |s.tasks| && !s.tasks[i].phase.Done?
    ensures CanWork(c, idOf, s, j, a)
  {
    if k :| 0 <= k < |s.tasks| && s.tasks[k].phase.Idle? {
      j, a := k, Begin;
    } else if k :| 0 <= k < |s.tasks| && s.tasks[k].phase.Querying? {
      j, a := k, GiveQuery;
    } else if k :| 0 <= k < |s.tasks| && s.tasks[k].phase.Unlocked? {
      j, a := k, Release;
    } else if k :| 0 <= k < |s.tasks| && s.tasks[k].phase.Running? {
      assert QueryConnections(s) == {};
      j, a := k, if s.tasks[k].queries > 0 then TakeQuery else if s.tasks[k].key.Some? then Unlock else Finish;
    } else {
      j, a := WaitersGoOn(c, idOf, s, i);
    }
  }

  /** How many steps a task has left at most. */
  function Work(t: Task): nat {
    match t.phase
    case Done => 0
    case Unlocked => 1
    case Querying => if t.queries == 0 then 1 else 2 * t.queries + 1
    case Running => 2 * t.queries + 2
    case Connected => 2 * t.queries + 3
    case Queued => 2 * t.queries + 4
    case Idle => 2 * t.queries + 5
  }

  function TotalWork(tasks: seq<Task>): nat {
    if tasks == [] then 0 else TotalWork(tasks[..|tasks| - 1]) + Work(tasks[|tasks| - 1])
  }

  lemma {:induction false} WorkChanges(tasks: seq<Task>, i: nat, t: Task)
    requires i < |tasks|
    ensures TotalWork(tasks[i := t]) == TotalWork(tasks) - Work(tasks[i]) + Work(t)
  {
    var front := tasks[..|tasks| - 1];
    if i == |tasks| - 1 {
      assert tasks[i := t][..|tasks| - 1] == front;
    } else {
      WorkChanges(front, i, t);
      assert tasks[i := t][..|tasks| - 1] == front[i := t];
    }
  }

  lemma StepUsesWork(c: Pools, idOf: string -> int, s: State, i: nat, a: Action)
    requires Enabled(c, idOf, s, i, a)
    ensures TotalWork(Do(c, idOf, s, i, a).tasks) < TotalWork(s.tasks)
  {
    WorkChanges(s.tasks, i, Do(c, idOf, s, i, a).tasks[i]);
  }

  lemma {:induction false} RunUsesWork(c: Pools, idOf: string -> int, s: State, run: Schedule)
    requires Runs(c, idOf, s, run)
    ensures |run| + TotalWork(End(c, idOf, s, run).tasks) <= TotalWork(s.tasks)
  {
    if run != [] {
      RunUsesWork(c, idOf, s, run[..|run| - 1]);
      StepUsesWork(c, idOf, End(c, idOf, s, run[..|run| - 1]), run[|run| - 1].0, run[|run| - 1].1);
    }
  }

  /** Two-pool progress: with a connection or more in each pool, no reachable state is stuck while work is
      pending, and no run is longer than the work there was, so every run that goes on as long as it can ends
      with every task done. */
  lemma TwoPoolsFinish(c: Pools, idOf: string -> int, s: State, run: Schedule)
    requires c.Separate? && c.lockMax > 0 && c.queryMax > 0
    requires Initial(s) && Runs(c, idOf, s, run)
    ensures Pending(End(c, idOf, s, run)) <==> exists j: nat, a :: CanWork(c, idOf, End(c, idOf, s, run), j, a)
    ensures |run| <= TotalWork(s.tasks)
  {
    RunInv(c, idOf, s, run);
    RunUsesWork(c, idOf, s, run);
    var end := End(c, idOf, s, run);
    if i :| 0 <= i < |end.tasks| && !end.tasks[i].phase.Done? {
      var j, a := SomeoneCanWork(c, idOf, end, i);
    }
  }

  // ---------------------------------------------------------------- one pool: the deadlock

  /** Tasks that all want a different lock and then a query. */
  predicate Rivals(idOf: string -> int, tasks: seq<Task>) {
    && (forall i :: 0 <= i < |tasks| ==> tasks[i].key.Some? && tasks[i].queries > 0 && tasks[i].phase.Idle?)
    && (forall i, j :: 0 <= i < j < |tasks| ==> idOf(tasks[i].key.value) != idOf(tasks[j].key.value))
  }

  /** The first k hold their lock and its connection, the rest have not begun. */
  predicate FirstInside(idOf: string -> int, s0: State, s: State, k: nat) {
    && |s.tasks| == |s0.tasks| && k <= |s.tasks|
    && (forall i :: 0 <= i < |s.tasks| ==> s.tasks[i] == if i < k then s0.tasks[i].(phase := Running) else s0.tasks[i])
    && (forall id :: id in s.locks ==>
      exists i :: 0 <= i < k && s0.tasks[i].key.Some? && idOf(s0.tasks[i].key.value) == id)
  }

  function Below(k: nat): set<nat> {
    if k == 0 then {} else Below(k - 1) + {k - 1}
  }

  lemma {:induction false} BelowHas(k: nat)
    ensures |Below(k)| == k && forall i: nat :: i in Below(k) <==> i < k
  {
    if k > 0 {
      BelowHas(k - 1);
    }
  }

  lemma UsedByFirst(idOf: string -> int, s0: State, s: State, k: nat)
    requires Rivals(idOf, s0.tasks) && FirstInside(idOf, s0, s, k)
    ensures |LockConnections(s)| == k && QueryConnections(s) == {}
  {
    BelowHas(k);
    assert LockConnections(s) == Below(k);
  }

  lemma Extend(c: Pools, idOf: string -> int, s: State, run: Schedule, i: nat, a: Action) returns (longer: Schedule)
    requires Runs(c, idOf, s, run) && Enabled(c, idOf, End(c, idOf, s, run), i, a)
    ensures Runs(c, idOf, s, longer) && End(c, idOf, s, longer) == Do(c, idOf, End(c, idOf, s, run), i, a)
  {
    longer := run + [(i, a)];
    assert longer[..|run|] == run;
  }

  lemma {:induction false} FillPool(c: Pools, idOf: string -> int, s: State, k: nat) returns (run: Schedule)
    requires c.Shared? && k <= c.max && k <= |s.tasks|
    requires Initial(s) && Rivals(idOf, s.tasks)
    ensures Runs(c, idOf, s, run) && FirstInside(idOf, s, End(c, idOf, s, run), k)
  {
    run := [];
    if k > 0 {
      run := FillPool(c, idOf, s, k - 1);
      UsedByFirst(idOf, s, End(c, idOf, s, run), k - 1);
      run := Enter(c, idOf, s, run, k - 1);
    }
  }

  /** One more rival takes a connection and its lock. */
  lemma Enter(c: Pools, idOf: string -> int, s: State, front: Schedule, k: nat) returns (run: Schedule)
    requires Rivals(idOf, s.tasks) && k < |s.tasks|
    requires Runs(c, idOf, s, front) && FirstInside(idOf, s, End(c, idOf, s, front), k)
    requires LockPoolFree(c, End(c, idOf, s, front))
    ensures Runs(c, idOf, s, run) && FirstInside(idOf, s, End(c, idOf, s, run), k + 1)
  {
    var start := End(c, idOf, s, front);
    run := Extend(c, idOf, s, front, k, Begin);
    assert LockConnections(End(c, idOf, s, run)) == LockConnections(start);
    assert QueryConnections(End(c, idOf, s, run)) == QueryConnections(start);
    run := Extend(c, idOf, s, run, k, Acquire);
    run := Extend(c, idOf, s, run, k, Lock);
  }

  /** One pool of N connections for both purposes: for every N, N tasks with different locks can reach a state
      in which each holds its lock and no step is possible. */
  lemma OnePoolDeadlocks(c: Pools, idOf: string -> int, s: State) returns (run: Schedule)
    requires c.Shared? && c.max > 0 && Initial(s) && Rivals(idOf, s.tasks) && |s.tasks| == c.max
    ensures Runs(c, idOf, s, run) && Pending(End(c, idOf, s, run))
    ensures forall i, a :: !CanWork(c, idOf, End(c, idOf, s, run), i, a)
    ensures forall i :: 0 <= i < |End(c, idOf, s, run).tasks| ==> End(c, idOf, s, run).tasks[i].phase.Inside()
  {
    run := FillPool(c, idOf, s, c.max);
    var end := End(c, idOf, s, run);
    UsedByFirst(idOf, s, end, c.max);
    assert !end.tasks[0].phase.Done?;
  }
}
