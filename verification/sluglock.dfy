/** The keyed mutex's map as the program changes it: entries are objects, acquire and release run under
    the map's own mutex. */
module Sluglock {
  import opened CommentTypes
  import opened KeyedMutex

  class LockEntry {
    var waiters: int

    constructor ()
      ensures waiters == 0
    {
      waiters := 0;
    }
  }

  /** Each key has an entry of its own. */
  predicate Separate(locks: map<string, nat>, entries: map<nat, Entry>) {
    && (forall k :: k in locks ==> locks[k] in entries)
    && (forall k, l :: k in locks && l in locks && locks[k] == locks[l] ==> k == l)
  }

  /** The waiter count per key in a state of the step relation. */
  function CountsOf(locks: map<string, nat>, entries: map<nat, Entry>): map<string, int>
    requires Separate(locks, entries)
  {
    map k | k in locks :: entries[locks[k]].waiters
  }

  function Bumped(counts: map<string, int>, key: string): map<string, int> {
    counts[key := (if key in counts then counts[key] else 0) + 1]
  }

  function Dropped(counts: map<string, int>, key: string): map<string, int> {
    if key !in counts then counts
    else if counts[key] == 1 then counts - {key}
    else counts[key := counts[key] - 1]
  }

  lemma CountsBump(locks: map<string, nat>, entries: map<nat, Entry>, key: string, e: nat, n: Entry)
    requires Separate(locks, entries)
    requires if key in locks then locks[key] == e else e !in entries
    requires n.waiters == (if key in locks then entries[e].waiters else 0) + 1
    ensures Separate(locks[key := e], entries[e := n])
    ensures CountsOf(locks[key := e], entries[e := n]) == Bumped(CountsOf(locks, entries), key)
  {
    assert forall k :: k in locks && k != key ==> locks[k] != e;
  }

  /** The Acquire step of the protocol is exactly one count more for the key. */
  lemma AcquireStepCounts(s: State, t: nat)
    requires Separate(s.locks, s.entries) && s.nextEntry !in s.entries && Enabled(s, t, Acquire)
    ensures Separate(Do(s, t, Acquire).locks, Do(s, t, Acquire).entries)
    ensures CountsOf(Do(s, t, Acquire).locks, Do(s, t, Acquire).entries)
         == Bumped(CountsOf(s.locks, s.entries), s.threads[t].job.key)
  {
    hide Bumped, CountsOf;
    var key := s.threads[t].job.key;
    var e := if key in s.locks then s.locks[key] else s.nextEntry;
    var n := if key in s.locks then s.entries[e] else Entry(None, 0);
    CountsBump(s.locks, s.entries, key, e, n.(waiters := n.waiters + 1));
    assert s.locks[key := e] == Do(s, t, Acquire).locks;
    assert s.entries[e := n.(waiters := n.waiters + 1)] == Do(s, t, Acquire).entries;
  }

  function Left(locks: map<string, nat>, key: string, n: Entry): map<string, nat> {
    if n.waiters == 0 then locks - {key} else locks
  }

  lemma CountsDrop(locks: map<string, nat>, entries: map<nat, Entry>, key: string, n: Entry)
    requires Separate(locks, entries) && key in locks
    requires n.waiters == entries[locks[key]].waiters - 1
    ensures Separate(Left(locks, key, n), entries[locks[key] := n])
    ensures CountsOf(Left(locks, key, n), entries[locks[key] := n]) == Dropped(CountsOf(locks, entries), key)
  {
    assert forall k :: k in locks && k != key ==> locks[k] != locks[key];
  }

  /** The Release step is exactly one count less, and the key forgotten when it was the last. */
  lemma ReleaseStepCounts(s: State, t: nat)
    requires Separate(s.locks, s.entries) && Enabled(s, t, Release)
    requires s.threads[t].job.key in s.locks && s.locks[s.threads[t].job.key] == s.threads[t].phase.e
    ensures Separate(Do(s, t, Release).locks, Do(s, t, Release).entries)
    ensures CountsOf(Do(s, t, Release).locks, Do(s, t, Release).entries)
         == Dropped(CountsOf(s.locks, s.entries), s.threads[t].job.key)
  {
    var key, e := s.threads[t].job.key, s.threads[t].phase.e;
    CountsDrop(s.locks, s.entries, key, s.entries[e].(waiters := s.entries[e].waiters - 1));
  }

  class Memory {
    var locks: map<string, LockEntry>

    /** No two keys share an entry. */
    predicate Valid()
      reads this
    {
      forall k, l :: k in locks && l in locks && locks[k] == locks[l] ==> k == l
    }

    function Counts(): map<string, int>
      reads this, locks.Values
    {
      map k | k in locks :: locks[k].waiters
    }

    constructor ()
      ensures Valid() && Counts() == map[]
    {
      locks := map[];
    }

    /** acquire: fetch or make the key's entry and count this caller in. */
    method Acquire(key: string) returns (e: LockEntry)
      requires Valid()
      modifies this, locks.Values
      ensures Valid() && locks == old(locks)[key := e]
      ensures if key in old(locks) then e == old(locks)[key] else fresh(e)
      ensures Counts() == Bumped(old(Counts()), key)
    {
      if key in locks {
        e := locks[key];
      } else {
        e := new LockEntry();
        locks := locks[key := e];
      }
      e.waiters := e.waiters + 1;
      assert forall k :: k in locks && k != key ==> locks[k] != e;
    }

    /** release: count this caller out, and forget the entry when nobody is left. */
    method Release(key: string, e: LockEntry)
      requires Valid() && key in locks && locks[key] == e
      modifies this, e
      ensures Valid() && locks == if old(e.waiters) == 1 then old(locks) - {key} else old(locks)
      ensures Counts() == Dropped(old(Counts()), key)
    {
      e.waiters := e.waiters - 1;
      if e.waiters == 0 {
        locks := locks - {key};
      }
      assert forall k :: k in locks && k != key ==> locks[k] != e;
    }
  }
}
