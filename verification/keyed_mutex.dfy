/** The reclaiming per-key mutex as a step relation: threads that each run one read-apply-write of a
    keyed store under the key's lock. */
module KeyedMutex {
  import opened CommentTypes

  /** A stored record, as the text it is kept in. */
  type Value = string

  /** What an operation does to the value stored under its key. */
  datatype Effect = Keep | Put(value: Value) | Drop

  /** The body of one With call: read the value, decide, write. */
  datatype Job = Job(key: string, apply: Option<Value> -> Effect)

  /** Where a With call stands. e is the entry it fetched from the map. */
  datatype Phase =
    | Idle                                   // before acquire
    | Waiting(e: nat)                        // counted in waiters, blocked on the entry's mutex
    | Holding(e: nat)                        // mutex taken, fn not yet past its read
    | HasRead(e: nat, seen: Option<Value>)       // fn between its read and its write
    | Returned(e: nat)                       // fn done, mutex still held
    | Leaving(e: nat)                        // mutex given back, still counted
    | Finished
  {
    predicate Counted() { Waiting? || Holding? || HasRead? || Returned? || Leaving? }
    predicate HoldsMutex() { Holding? || HasRead? || Returned? }
  }

  datatype Thread = Thread(job: Job, phase: Phase)

  datatype Entry = Entry(owner: Option<nat>, waiters: int)

  /** grants lists the threads in the order in which they got their lock, written those whose write
      step completed. */
  datatype State = State(
    threads: map<nat, Thread>,
    locks: map<string, nat>,
    entries: map<nat, Entry>,
    nextEntry: nat,
    store: map<string, Value>,
    grants: seq<nat>,
    written: set<nat>)

  datatype Action = Cancel | Acquire | Lock | Read | ReadFails | Write | WriteFails | Unlock | Release

  function Lookup(store: map<string, Value>, key: string): Option<Value> {
    if key in store then Some(store[key]) else None
  }

  function Store(store: map<string, Value>, key: string, eff: Effect): map<string, Value> {
    match eff
    case Keep => store
    case Put(v) => store[key := v]
    case Drop => store - {key}
  }

  function After(v: Option<Value>, eff: Effect): Option<Value> {
    match eff
    case Keep => v
    case Put(w) => Some(w)
    case Drop => None
  }

  predicate Enabled(s: State, t: nat, a: Action) {
    t in s.threads &&
    var p := s.threads[t].phase;
    match a
    case Cancel => p.Idle?
    case Acquire => p.Idle?
    case Lock => p.Waiting? && p.e in s.entries && s.entries[p.e].owner.None?
    case Read => p.Holding?
    case ReadFails => p.Holding?
    case Write => p.HasRead?
    case WriteFails => p.HasRead?
    case Unlock => p.Returned? && p.e in s.entries
    case Release => p.Leaving? && p.e in s.entries
  }

  function To(s: State, t: nat, phase: Phase): State
    requires t in s.threads
  {
    s.(threads := s.threads[t := s.threads[t].(phase := phase)])
  }

  /** One step of one thread. Acquire and Release are single steps: each runs under the map's mutex. */
  function Do(s: State, t: nat, a: Action): State
    requires Enabled(s, t, a)
  {
    var job := s.threads[t].job;
    var p := s.threads[t].phase;
    match a
    case Cancel => To(s, t, Finished)
    case Acquire =>
      var s1 := if job.key in s.locks then s
                else s.(locks := s.locks[job.key := s.nextEntry],
                        entries := s.entries[s.nextEntry := Entry(None, 0)],
                        nextEntry := s.nextEntry + 1);
      var e := s1.locks[job.key];
      var n := if e in s1.entries then s1.entries[e] else Entry(None, 0);
      To(s1.(entries := s1.entries[e := n.(waiters := n.waiters + 1)]), t, Waiting(e))
    case Lock =>
      To(s.(entries := s.entries[p.e := s.entries[p.e].(owner := Some(t))], grants := s.grants + [t]), t, Holding(p.e))
    case Read => To(s, t, HasRead(p.e, Lookup(s.store, job.key)))
    case ReadFails => To(s, t, Returned(p.e))
    case Write =>
      To(s.(store := Store(s.store, job.key, job.apply(p.seen)), written := s.written + {t}), t, Returned(p.e))
    case WriteFails => To(s, t, Returned(p.e))
    case Unlock => To(s.(entries := s.entries[p.e := s.entries[p.e].(owner := None)]), t, Leaving(p.e))
    case Release =>
      var n := s.entries[p.e].(waiters := s.entries[p.e].waiters - 1);
      var locks := if n.waiters == 0 then s.locks - {job.key} else s.locks;
      To(s.(entries := s.entries[p.e := n], locks := locks), t, Finished)
  }

  predicate Initial(s: State) {
    && (forall t :: t in s.threads ==> s.threads[t].phase.Idle?)
    && s.locks == map[] && s.entries == map[] && s.grants == [] && s.written == {}
  }

  /** A schedule: which thread takes which step. */
  type Schedule = seq<(nat, Action)>

  predicate Runs(s: State, run: Schedule)
    decreases |run|, 0
  {
    run == [] || (Runs(s, run[..|run| - 1]) &&
                  Enabled(End(s, run[..|run| - 1]), run[|run| - 1].0, run[|run| - 1].1))
  }

  function End(s: State, run: Schedule): State
    requires Runs(s, run)
    decreases |run|, 1
  {
    if run == [] then s else Do(End(s, run[..|run| - 1]), run[|run| - 1].0, run[|run| - 1].1)
  }

  // ---------------------------------------------------------------- the invariant

  /** The threads between acquire and release on a key. */
  function Users(s: State, key: string): set<nat> {
    set t | t in s.threads && s.threads[t].job.key == key && s.threads[t].phase.Counted()
  }

  /** Each key in the map has an entry of its own. */
  predicate EntriesInv(s: State) {
    && (forall k :: k in s.locks ==> s.locks[k] in s.entries && s.locks[k] < s.nextEntry)
    && (forall k, l :: k in s.locks && l in s.locks && s.locks[k] == s.locks[l] ==> k == l)
  }

  /** Each entry in the map counts exactly the users of its key, and there is one. */
  predicate CountsInv(s: State) {
    forall k :: k in s.locks ==>
      s.locks[k] in s.entries && s.entries[s.locks[k]].waiters == |Users(s, k)| && Users(s, k) != {}
  }

  /** A counted thread works on the entry the map has for its key. */
  predicate ThreadsInv(s: State) {
    forall t :: t in s.threads && s.threads[t].phase.Counted() ==>
      s.threads[t].job.key in s.locks && s.threads[t].phase.e == s.locks[s.threads[t].job.key]
  }

  predicate Owns(s: State, k: string, t: nat) {
    k in s.locks && s.locks[k] in s.entries && s.entries[s.locks[k]].owner == Some(t)
  }

  /** The owner recorded in an entry is the thread of its key that holds the mutex. */
  ghost predicate OwnerInv(s: State) {
    && (forall t :: t in s.threads && s.threads[t].phase.HoldsMutex() ==> Owns(s, s.threads[t].job.key, t))
    && (forall k, t :: Owns(s, k, t) ==> t in s.threads && s.threads[t].job.key == k && s.threads[t].phase.HoldsMutex())
  }

  ghost predicate Inv(s: State) {
    EntriesInv(s) && CountsInv(s) && ThreadsInv(s) && OwnerInv(s)
  }

  lemma InitialInv(s: State)
    requires Initial(s)
    ensures Inv(s)
  {
  }

  /** Users of a key after one thread moved. */
  lemma UsersMove(s: State, s': State, t: nat, k: string)
    requires t in s.threads && t in s'.threads
    requires s'.threads == s.threads[t := s.threads[t].(phase := s'.threads[t].phase)]
    ensures Users(s', k) ==
      if s.threads[t].job.key != k then Users(s, k)
      else if s'.threads[t].phase.Counted() then Users(s, k) + {t} else Users(s, k) - {t}
  {
  }

  lemma NoUsersWithoutEntry(s: State, k: string)
    requires ThreadsInv(s) && k !in s.locks
    ensures Users(s, k) == {}
  {
    assert forall t :: t in s.threads && s.threads[t].phase.Counted() ==> s.threads[t].job.key != k;
  }

  lemma AcquireEntries(s: State, t: nat)
    requires Inv(s) && Enabled(s, t, Acquire)
    ensures EntriesInv(Do(s, t, Acquire))
  {
  }

  lemma AcquireThreads(s: State, t: nat)
    requires Inv(s) && Enabled(s, t, Acquire)
    ensures ThreadsInv(Do(s, t, Acquire))
  {
    var s' := Do(s, t, Acquire);
    forall u | u in s'.threads && s'.threads[u].phase.Counted()
      ensures s'.threads[u].job.key in s'.locks && s'.threads[u].phase.e == s'.locks[s'.threads[u].job.key]
    {
      assert u != t ==> s'.threads[u] == s.threads[u];
    }
  }

  lemma AcquireOwner(s: State, t: nat)
    requires Inv(s) && Enabled(s, t, Acquire)
    ensures OwnerInv(Do(s, t, Acquire))
  {
    var s', key := Do(s, t, Acquire), s.threads[t].job.key;
    forall k, u ensures Owns(s', k, u) <==> Owns(s, k, u) {
      if k in s.locks {
        assert s'.locks[k] == s.locks[k] && s'.entries[s.locks[k]].owner == s.entries[s.locks[k]].owner;
      } else if k == key {
        assert s'.entries[s'.locks[k]].owner == None;
      }
    }
    OwnerByOwns(s, s', t);
  }

  /** Ownership survives when neither the records nor who is inside fn changed. */
  lemma OwnerByOwns(s: State, s': State, t: nat)
    requires OwnerInv(s) && t in s.threads && t in s'.threads
    requires s'.threads == s.threads[t := s.threads[t].(phase := s'.threads[t].phase)]
    requires s'.threads[t].phase.HoldsMutex() == s.threads[t].phase.HoldsMutex()
    requires forall k, u :: Owns(s', k, u) <==> Owns(s, k, u)
    ensures OwnerInv(s')
  {
    forall u | u in s'.threads && s'.threads[u].phase.HoldsMutex() ensures Owns(s', s'.threads[u].job.key, u) {
      assert s.threads[u].phase.HoldsMutex();
    }
  }

  lemma AcquireCounts(s: State, t: nat)
    requires Inv(s) && Enabled(s, t, Acquire)
    ensures CountsInv(Do(s, t, Acquire))
  {
    hide OwnerInv;
    var s', key := Do(s, t, Acquire), s.threads[t].job.key;
    if key !in s.locks {
      NoUsersWithoutEntry(s, key);
    }
    assert t !in Users(s, key);
    forall k | k in s'.locks
      ensures s'.locks[k] in s'.entries && s'.entries[s'.locks[k]].waiters == |Users(s', k)| && Users(s', k) != {}
    {
      UsersMove(s, s', t, k);
    }
  }

  lemma ReleaseEntries(s: State, t: nat)
    requires Inv(s) && Enabled(s, t, Release)
    ensures EntriesInv(Do(s, t, Release))
  {
    assert forall k :: k in Do(s, t, Release).locks ==> k in s.locks && Do(s, t, Release).locks[k] == s.locks[k];
  }

  lemma ReleaseOwner(s: State, t: nat)
    requires Inv(s) && Enabled(s, t, Release)
    ensures OwnerInv(Do(s, t, Release))
  {
    var s', key := Do(s, t, Release), s.threads[t].job.key;
    assert t in Users(s, key);
    if s.entries[s.threads[t].phase.e].waiters == 1 {
      LoneUserOwnsNot(s, t);
    }
    forall k, u ensures Owns(s', k, u) <==> Owns(s, k, u) {
      if k in s'.locks {
        assert s'.locks[k] == s.locks[k] && s'.entries[s.locks[k]].owner == s.entries[s.locks[k]].owner;
      }
    }
    OwnerByOwns(s, s', t);
  }

  /** When only the leaving thread is left, nobody owns the mutex. */
  lemma LoneUserOwnsNot(s: State, t: nat)
    requires Inv(s) && Enabled(s, t, Release) && s.entries[s.threads[t].phase.e].waiters == 1
    ensures s.entries[s.threads[t].phase.e].owner.None?
  {
    var key := s.threads[t].job.key;
    assert t in Users(s, key);
    LoneUser(s, key, t);
    assert forall u :: Owns(s, key, u) ==> u in Users(s, key);
    assert s.entries[s.locks[key]].owner.Some? ==> Owns(s, key, s.entries[s.locks[key]].owner.value);
  }

  lemma LoneUser(s: State, k: string, t: nat)
    requires t in Users(s, k) && |Users(s, k)| == 1
    ensures forall u :: u in Users(s, k) ==> u == t
  {
    assert |Users(s, k) - {t}| == 0;
    assert Users(s, k) == (Users(s, k) - {t}) + {t};
  }

  lemma ReleaseThreads(s: State, t: nat)
    requires Inv(s) && Enabled(s, t, Release)
    ensures ThreadsInv(Do(s, t, Release))
  {
    var s', key := Do(s, t, Release), s.threads[t].job.key;
    assert t in Users(s, key);
    if s.entries[s.threads[t].phase.e].waiters == 1 {
      LoneUser(s, key, t);
    }
    forall u | u in s'.threads && s'.threads[u].phase.Counted()
      ensures s'.threads[u].job.key in s'.locks && s'.threads[u].phase.e == s'.locks[s'.threads[u].job.key]
    {
      assert u != t && s.threads[u] == s'.threads[u];
      assert s.threads[u].job.key == key ==> u in Users(s, key);
    }
  }

  lemma ReleaseCounts(s: State, t: nat)
    requires Inv(s) && Enabled(s, t, Release)
    ensures CountsInv(Do(s, t, Release))
  {
    var s', key := Do(s, t, Release), s.threads[t].job.key;
    assert t in Users(s, key);
    forall k | k in s'.locks
      ensures s'.locks[k] in s'.entries && s'.entries[s'.locks[k]].waiters == |Users(s', k)| && Users(s', k) != {}
    {
      assert k in s.locks;
      UsersMove(s, s', t, k);
      if k == key {
        assert |Users(s, key) - {t}| == |Users(s, key)| - 1;
      }
    }
  }

  /** Every other step moves one thread that stays counted, or stays uncounted. */
  lemma OtherKeeps(s: State, t: nat, a: Action)
    requires Inv(s) && Enabled(s, t, a) && a != Acquire && a != Release
    ensures EntriesInv(Do(s, t, a)) && ThreadsInv(Do(s, t, a))
  {
    hide OwnerInv, CountsInv;
  }

  lemma LockOwner(s: State, t: nat)
    requires Inv(s) && Enabled(s, t, Lock)
    ensures OwnerInv(Do(s, t, Lock))
  {
    hide CountsInv;
    var s', key := Do(s, t, Lock), s.threads[t].job.key;
    forall k, u ensures Owns(s', k, u) <==> if k == key then u == t else Owns(s, k, u) {
      if k in s.locks && k != key {
        assert s.locks[k] != s.locks[key];
      }
    }
    forall u | u in s'.threads && s'.threads[u].phase.HoldsMutex() ensures Owns(s', s'.threads[u].job.key, u) {
      assert u != t ==> Owns(s, s.threads[u].job.key, u);
    }
  }

  lemma UnlockOwner(s: State, t: nat)
    requires Inv(s) && Enabled(s, t, Unlock)
    ensures OwnerInv(Do(s, t, Unlock))
  {
    var s', key := Do(s, t, Unlock), s.threads[t].job.key;
    assert Owns(s, key, t);
    forall k, u ensures Owns(s', k, u) <==> k != key && Owns(s, k, u) {
      if k in s.locks && k != key {
        assert s.locks[k] != s.locks[key];
      }
    }
    forall u | u in s'.threads && s'.threads[u].phase.HoldsMutex() ensures Owns(s', s'.threads[u].job.key, u) {
      assert u != t && Owns(s, s.threads[u].job.key, u);
    }
  }

  lemma OtherOwner(s: State, t: nat, a: Action)
    requires Inv(s) && Enabled(s, t, a) && a != Acquire && a != Release
    ensures OwnerInv(Do(s, t, a))
  {
    if a == Lock {
      LockOwner(s, t);
    } else if a == Unlock {
      UnlockOwner(s, t);
    } else {
      forall k, u ensures Owns(Do(s, t, a), k, u) <==> Owns(s, k, u) {}
      OwnerByOwns(s, Do(s, t, a), t);
    }
  }

  lemma OtherCounts(s: State, t: nat, a: Action)
    requires Inv(s) && Enabled(s, t, a) && a != Acquire && a != Release
    ensures CountsInv(Do(s, t, a))
  {
    hide OwnerInv, EntriesInv, ThreadsInv;
    var s' := Do(s, t, a);
    forall k | k in s'.locks
      ensures s'.locks[k] in s'.entries && s'.entries[s'.locks[k]].waiters == |Users(s', k)| && Users(s', k) != {}
    {
      UsersMove(s, s', t, k);
      assert Users(s', k) == Users(s, k);
    }
  }

  lemma StepInv(s: State, t: nat, a: Action)
    requires Inv(s) && Enabled(s, t, a)
    ensures Inv(Do(s, t, a))
  {
    if a == Acquire {
      AcquireEntries(s, t);
      AcquireThreads(s, t);
      AcquireOwner(s, t);
      AcquireCounts(s, t);
    } else if a == Release {
      ReleaseEntries(s, t);
      ReleaseOwner(s, t);
      ReleaseThreads(s, t);
      ReleaseCounts(s, t);
    } else {
      OtherKeeps(s, t, a);
      OtherOwner(s, t, a);
      OtherCounts(s, t, a);
    }
  }

  lemma {:induction false} RunInv(s: State, run: Schedule)
    requires Initial(s) && Runs(s, run)
    ensures Inv(End(s, run))
    decreases |run|
  {
    if run == [] {
      InitialInv(s);
    } else {
      RunInv(s, run[..|run| - 1]);
      StepInv(End(s, run[..|run| - 1]), run[|run| - 1].0, run[|run| - 1].1);
    }
  }

  predicate SameKey(s: State, t: nat, u: nat) {
    t in s.threads && u in s.threads && s.threads[t].job.key == s.threads[u].job.key
  }

  /** In every reachable state: at most one thread per key is inside fn, all threads between acquire
      and release on a key share one entry, that entry counts exactly them, and the map holds exactly
      the keys with such threads, so it is empty when all is quiet. */
  lemma MutexSafety(s: State, run: Schedule)
    requires Initial(s) && Runs(s, run)
    ensures var r := End(s, run);
      && (forall t, u :: SameKey(r, t, u) && r.threads[t].phase.HoldsMutex() && r.threads[u].phase.HoldsMutex() ==>
            t == u)
      && (forall t, u :: SameKey(r, t, u) && r.threads[t].phase.Counted() && r.threads[u].phase.Counted() ==>
            r.threads[t].phase.e == r.threads[u].phase.e)
      && (forall k :: k in r.locks <==> Users(r, k) != {})
      && (forall k :: k in r.locks ==> r.locks[k] in r.entries && r.entries[r.locks[k]].waiters == |Users(r, k)|)
  {
    RunInv(s, run);
    var r := End(s, run);
    forall k ensures k in r.locks <==> Users(r, k) != {} {
      if k !in r.locks {
        NoUsersWithoutEntry(r, k);
      }
    }
    forall t, u | SameKey(r, t, u) && r.threads[t].phase.HoldsMutex() && r.threads[u].phase.HoldsMutex()
      ensures t == u
    {
      assert Owns(r, r.threads[t].job.key, t) && Owns(r, r.threads[u].job.key, u);
    }
  }

  // ---------------------------------------------------------------- progress

  /** No reachable state is stuck: while some call is unfinished, some thread has a step to take. */
  lemma MutexProgress(s: State, run: Schedule, t: nat)
    requires Initial(s) && Runs(s, run)
    requires t in End(s, run).threads && !End(s, run).threads[t].phase.Finished?
    ensures exists u, a :: Enabled(End(s, run), u, a)
  {
    RunInv(s, run);
    var r := End(s, run);
    var key := r.threads[t].job.key;
    match r.threads[t].phase
    case Idle => assert Enabled(r, t, Acquire);
    case Waiting(e) =>
      if r.entries[e].owner.None? {
        assert Enabled(r, t, Lock);
      } else {
        var u := r.entries[e].owner.value;
        assert Owns(r, key, u);
        HolderMoves(r, u);
      }
    case Leaving(e) => assert Enabled(r, t, Release);
    case _ => HolderMoves(r, t);
  }

  lemma HolderMoves(s: State, t: nat)
    requires Inv(s) && t in s.threads && s.threads[t].phase.HoldsMutex()
    ensures exists a :: Enabled(s, t, a)
  {
    match s.threads[t].phase
    case Holding(_) => assert Enabled(s, t, Read);
    case HasRead(_, _) => assert Enabled(s, t, Write);
    case Returned(_) => assert Enabled(s, t, Unlock);
  }

  // ---------------------------------------------------------------- no lost update

  /** The value under a key after the written jobs of that key, applied one after the other in the
      order in which their threads got the lock. */
  function Applied(s: State, start: Option<Value>, k: string, grants: seq<nat>): Option<Value> {
    if grants == [] then start
    else
      var v := Applied(s, start, k, grants[..|grants| - 1]);
      var t := grants[|grants| - 1];
      if t in s.threads && s.threads[t].job.key == k && t in s.written then After(v, s.threads[t].job.apply(v)) else v
  }

  predicate On(s: State, t: nat, k: string) {
    t in s.threads && s.threads[t].job.key == k
  }

  /** t is the last thread of key k in the list. */
  predicate LastOn(s: State, grants: seq<nat>, k: string, t: nat) {
    grants != [] &&
    (grants[|grants| - 1] == t || (!On(s, grants[|grants| - 1], k) && LastOn(s, grants[..|grants| - 1], k, t)))
  }

  predicate NoRepeat(g: seq<nat>) {
    forall i, j :: 0 <= i < j < |g| ==> g[i] != g[j]
  }

  predicate GrantsInv(s: State) {
    && NoRepeat(s.grants)
    && (forall t :: t in s.grants ==> t in s.threads && !s.threads[t].phase.Idle? && !s.threads[t].phase.Waiting?)
    && s.written <= set t | t in s.grants
  }

  /** A thread inside fn that has not written is the last of its key to have been granted, and what it
      read is what is stored. */
  predicate PendingInv(s: State) {
    forall t :: t in s.threads && Pending(s, t) ==> PendingOk(s, t)
  }

  ghost predicate StoreInv(init: map<string, Value>, s: State) {
    forall k :: Lookup(s.store, k) == Applied(s, Lookup(init, k), k, s.grants)
  }

  ghost predicate SameJobs(s: State, s': State) {
    s.threads.Keys == s'.threads.Keys && forall t :: t in s.threads ==> s'.threads[t].job == s.threads[t].job
  }

  lemma {:induction false} AppliedSame(s: State, s': State, start: Option<Value>, k: string, grants: seq<nat>)
    requires SameJobs(s, s') && forall t :: t in grants && On(s, t, k) ==> (t in s.written <==> t in s'.written)
    ensures Applied(s, start, k, grants) == Applied(s', start, k, grants)
  {
    if grants != [] {
      AppliedSame(s, s', start, k, grants[..|grants| - 1]);
      assert grants[|grants| - 1] in grants;
    }
  }

  lemma {:induction false} LastOnSame(s: State, s': State, grants: seq<nat>, k: string, t: nat)
    requires SameJobs(s, s')
    ensures LastOn(s, grants, k, t) == LastOn(s', grants, k, t)
  {
    if grants != [] {
      LastOnSame(s, s', grants[..|grants| - 1], k, t);
    }
  }

  /** Writing as the last granted thread of a key appends its job to the applied ones. */
  lemma {:induction false} AppliedWrite(s: State, s': State, start: Option<Value>, t: nat, grants: seq<nat>)
    requires SameJobs(s, s') && t in s.threads && t !in s.written && s'.written == s.written + {t}
    requires NoRepeat(grants) && LastOn(s, grants, s.threads[t].job.key, t)
    ensures var k := s.threads[t].job.key; var v := Applied(s, start, k, grants);
      Applied(s', start, k, grants) == After(v, s.threads[t].job.apply(v))
  {
    var f, x, k := grants[..|grants| - 1], grants[|grants| - 1], s.threads[t].job.key;
    if x == t {
      AppliedSame(s, s', start, k, f);
    } else {
      AppliedWrite(s, s', start, t, f);
    }
  }

  lemma LookupStore(store: map<string, Value>, key: string, eff: Effect, k: string)
    ensures Lookup(Store(store, key, eff), k) == if k == key then After(Lookup(store, k), eff) else Lookup(store, k)
  {
  }

  lemma WriteKeepsStore(init: map<string, Value>, s: State, t: nat)
    requires Inv(s) && GrantsInv(s) && PendingInv(s) && StoreInv(init, s) && Enabled(s, t, Write)
    ensures StoreInv(init, Do(s, t, Write))
  {
    var s', key := Do(s, t, Write), s.threads[t].job.key;
    forall k ensures Lookup(s'.store, k) == Applied(s', Lookup(init, k), k, s'.grants) {
      LookupStore(s.store, key, s.threads[t].job.apply(s.threads[t].phase.seen), k);
      if k == key {
        AppliedWrite(s, s', Lookup(init, k), t, s.grants);
      } else {
        AppliedSame(s, s', Lookup(init, k), k, s.grants);
      }
    }
  }

  /** What a step other than a write leaves alone. */
  lemma OtherStep(s: State, t: nat, a: Action)
    requires Enabled(s, t, a) && a != Write
    ensures var s' := Do(s, t, a);
      && SameJobs(s, s') && s'.store == s.store && s'.written == s.written
      && s'.grants == (if a == Lock then s.grants + [t] else s.grants)
    ensures a == Lock ==> t in s.threads && s.threads[t].phase.Waiting?
  {
  }

  lemma OthersKeepStore(init: map<string, Value>, s: State, t: nat, a: Action)
    requires GrantsInv(s) && StoreInv(init, s) && Enabled(s, t, a) && a != Write
    ensures StoreInv(init, Do(s, t, a))
  {
    OtherStep(s, t, a);
    hide Do, Enabled;
    var s' := Do(s, t, a);
    forall k ensures Lookup(s'.store, k) == Applied(s', Lookup(init, k), k, s'.grants) {
      AppliedSame(s, s', Lookup(init, k), k, s.grants);
      if a == Lock {
        assert s'.grants[..|s'.grants| - 1] == s.grants;
        assert t !in s.grants;
        assert t !in s'.written;
      }
    }
  }

  lemma GrantsStep(s: State, t: nat, a: Action)
    requires Inv(s) && GrantsInv(s) && PendingInv(s) && Enabled(s, t, a)
    ensures GrantsInv(Do(s, t, a))
  {
    hide Inv, LastOn;
    var s' := Do(s, t, a);
    if a == Lock {
      assert t !in s.grants;
    } else if a == Write {
      LastOnMember(s, s.grants, s.threads[t].job.key, t);
    }
  }

  lemma {:induction false} LastOnMember(s: State, grants: seq<nat>, k: string, t: nat)
    requires LastOn(s, grants, k, t)
    ensures t in grants
  {
    if grants[|grants| - 1] != t {
      LastOnMember(s, grants[..|grants| - 1], k, t);
    }
  }

  predicate Pending(s: State, t: nat) {
    t in s.threads && (s.threads[t].phase.Holding? || s.threads[t].phase.HasRead?)
  }

  predicate PendingOk(s: State, t: nat)
    requires Pending(s, t)
  {
    && t !in s.written
    && LastOn(s, s.grants, s.threads[t].job.key, t)
    && (s.threads[t].phase.HasRead? ==> s.threads[t].phase.seen == Lookup(s.store, s.threads[t].job.key))
  }

  lemma PendingLock(s: State, t: nat, u: nat)
    requires Inv(s) && GrantsInv(s) && PendingInv(s) && Enabled(s, t, Lock)
    requires Pending(Do(s, t, Lock), u)
    ensures PendingOk(Do(s, t, Lock), u)
  {
    var s' := Do(s, t, Lock);
    assert s'.grants[..|s.grants|] == s.grants;
    if u != t {
      OneOwner(s, u, t);
      LastOnSame(s, s', s.grants, s.threads[u].job.key, u);
    } else {
      assert t !in s.written;
    }
  }

  lemma PendingWrite(s: State, t: nat, u: nat)
    requires Inv(s) && GrantsInv(s) && PendingInv(s) && Enabled(s, t, Write)
    requires Pending(Do(s, t, Write), u)
    ensures PendingOk(Do(s, t, Write), u)
  {
    assert u != t;
    LastOnSame(s, Do(s, t, Write), s.grants, s.threads[u].job.key, u);
    OneHolder(s, u, t);
    LookupStore(s.store, s.threads[t].job.key, s.threads[t].job.apply(s.threads[t].phase.seen), s.threads[u].job.key);
  }

  lemma PendingOther(s: State, t: nat, a: Action, u: nat)
    requires PendingInv(s) && Enabled(s, t, a) && a != Lock && a != Write
    requires Pending(Do(s, t, a), u)
    ensures PendingOk(Do(s, t, a), u)
  {
    LastOnSame(s, Do(s, t, a), s.grants, s.threads[u].job.key, u);
  }

  lemma PendingStep(s: State, t: nat, a: Action)
    requires Inv(s) && GrantsInv(s) && PendingInv(s) && Enabled(s, t, a)
    ensures PendingInv(Do(s, t, a))
  {
    forall u | Pending(Do(s, t, a), u) ensures PendingOk(Do(s, t, a), u) {
      if a == Lock {
        PendingLock(s, t, u);
      } else if a == Write {
        PendingWrite(s, t, u);
      } else {
        PendingOther(s, t, a, u);
      }
    }
  }

  lemma OneHolder(s: State, t: nat, u: nat)
    requires Inv(s) && t in s.threads && u in s.threads && t != u
    requires s.threads[t].phase.HoldsMutex() && s.threads[u].phase.HoldsMutex()
    ensures s.threads[t].job.key != s.threads[u].job.key
  {
    assert Owns(s, s.threads[t].job.key, t) && Owns(s, s.threads[u].job.key, u);
  }

  lemma OneOwner(s: State, u: nat, t: nat)
    requires Inv(s) && u in s.threads && s.threads[u].phase.HoldsMutex() && Enabled(s, t, Lock)
    ensures s.threads[t].job.key != s.threads[u].job.key
  {
    assert Owns(s, s.threads[u].job.key, u);
  }

  lemma {:induction false} RunKeepsStore(s: State, run: Schedule)
    requires Initial(s) && Runs(s, run)
    ensures GrantsInv(End(s, run)) && PendingInv(End(s, run)) && StoreInv(s.store, End(s, run))
    decreases |run|
  {
    if run != [] {
      var f := run[..|run| - 1];
      var (t, a) := run[|run| - 1];
      RunKeepsStore(s, f);
      RunInv(s, f);
      GrantsStep(End(s, f), t, a);
      PendingStep(End(s, f), t, a);
      if a == Write {
        WriteKeepsStore(s.store, End(s, f), t);
      } else {
        OthersKeepStore(s.store, End(s, f), t, a);
      }
    }
  }

  /** No update is lost: in every reachable state, what is stored under each key is the initial value
      with the written jobs of that key applied in lock-grant order, each to the result of the one
      before. */
  lemma NoLostUpdate(s: State, run: Schedule, k: string)
    requires Initial(s) && Runs(s, run)
    ensures Lookup(End(s, run).store, k) == Applied(End(s, run), Lookup(s.store, k), k, End(s, run).grants)
  {
    RunKeepsStore(s, run);
  }
}
