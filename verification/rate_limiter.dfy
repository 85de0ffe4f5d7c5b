/** The fixed-window rate limiter. Times and durations are whole nanoseconds. */
module RateLimiter {
  const SECOND := 1_000_000_000
  const SWEEP_ABOVE := 10_000
  const TOKEN_PREFIX := 16

  datatype Limits = Limits(window: int, max: int)

  datatype Window = Window(count: int, resetAt: int)

  datatype Call = Call(token: string, ip: string, now: int)

  datatype Answer = Answer(ok: bool, retry: int)

  type Hits = map<string, Window>

  function Key(call: Call): string {
    (if |call.token| <= TOKEN_PREFIX then call.token else call.token[..TOKEN_PREFIX]) + "|" + call.ip
  }

  /** The window a call falls in: the one on record, or a new one when that is missing or over. */
  function WindowFor(c: Limits, hits: Hits, call: Call): Window {
    if Key(call) !in hits || hits[Key(call)].resetAt < call.now then Window(0, call.now + c.window) else hits[Key(call)]
  }

  function Judge(c: Limits, hits: Hits, call: Call): Answer {
    var w := WindowFor(c, hits, call);
    if c.max <= 0 || w.count + 1 <= c.max then Answer(true, 0)
    else Answer(false, (w.resetAt - call.now) / SECOND + 1)
  }

  /** The record after a call, before any sweep. */
  function Counted(c: Limits, hits: Hits, call: Call): Hits {
    if c.max <= 0 then hits
    else
      var w := WindowFor(c, hits, call);
      hits[Key(call) := w.(count := w.count + 1)]
  }

  function Sweep(hits: Hits, now: int): Hits {
    map k | k in hits && !(hits[k].resetAt < now) :: hits[k]
  }

  /** The record the program keeps: a granted call sweeps when there are many keys. */
  function Recorded(c: Limits, hits: Hits, call: Call): Hits {
    var counted := Counted(c, hits, call);
    if c.max > 0 && Judge(c, hits, call).ok && |counted| > SWEEP_ABOVE then Sweep(counted, call.now) else counted
  }

  class Limiter {
    const limits: Limits
    var hits: Hits

    constructor (limits: Limits)
      ensures this.limits == limits && hits == map[]
    {
      this.limits := limits;
      hits := map[];
    }

    method Allow(call: Call) returns (ok: bool, retry: int)
      modifies this
      ensures Answer(ok, retry) == Judge(limits, old(hits), call)
      ensures hits == Recorded(limits, old(hits), call)
    {
      if limits.max <= 0 {
        return true, 0;
      }
      var key := Key(call);
      if key !in hits || hits[key].resetAt < call.now {
        hits := hits[key := Window(0, call.now + limits.window)];
      }
      hits := hits[key := hits[key].(count := hits[key].count + 1)];
      assert hits == Counted(limits, old(hits), call);
      if hits[key].count > limits.max {
        return false, (hits[key].resetAt - call.now) / SECOND + 1;
      }
      if |hits| > SWEEP_ABOVE {
        DropOver(call.now);
      }
      return true, 0;
    }

    /** The sweep loop. */
    method DropOver(now: int)
      modifies this
      ensures hits == Sweep(old(hits), now)
    {
      ghost var before := hits;
      var left := hits.Keys;
      while left != {}
        invariant left <= before.Keys
        invariant hits == map k | k in before && (k in left || !(before[k].resetAt < now)) :: before[k]
      {
        var k :| k in left;
        if hits[k].resetAt < now {
          hits := hits - {k};
        }
        left := left - {k};
      }
    }
  }

  // ---------------------------------------------------------------- runs

  /** The record after a run, with the sweep and without it. */
  function Kept(c: Limits, calls: seq<Call>): Hits {
    if calls == [] then map[] else Recorded(c, Kept(c, calls[..|calls| - 1]), calls[|calls| - 1])
  }

  function Whole(c: Limits, calls: seq<Call>): Hits {
    if calls == [] then map[] else Counted(c, Whole(c, calls[..|calls| - 1]), calls[|calls| - 1])
  }

  predicate InOrder(calls: seq<Call>) {
    forall i, j :: 0 <= i < j < |calls| ==> calls[i].now <= calls[j].now
  }

  /** The swept record is part of the whole one, and what it lacks is over. */
  predicate Covers(kept: Hits, whole: Hits, now: int) {
    && (forall k :: k in kept ==> k in whole && whole[k] == kept[k])
    && (forall k :: k in whole && k !in kept ==> whole[k].resetAt < now)
  }

  lemma {:induction false} SweepOnlyDropsOver(c: Limits, calls: seq<Call>, now: int)
    requires InOrder(calls) && (calls != [] ==> calls[|calls| - 1].now <= now)
    ensures Covers(Kept(c, calls), Whole(c, calls), now)
  {
    if calls != [] {
      var call := calls[|calls| - 1];
      SweepOnlyDropsOver(c, calls[..|calls| - 1], call.now);
      var kept, whole := Kept(c, calls[..|calls| - 1]), Whole(c, calls[..|calls| - 1]);
      assert WindowFor(c, kept, call) == WindowFor(c, whole, call);
      assert Covers(Counted(c, kept, call), Counted(c, whole, call), call.now);
    }
  }

  /** With times that never go back, the sweep changes no answer. */
  lemma SweepChangesNoAnswer(c: Limits, calls: seq<Call>, call: Call)
    requires InOrder(calls + [call])
    ensures Judge(c, Kept(c, calls), call) == Judge(c, Whole(c, calls), call)
  {
    assert forall i :: 0 <= i < |calls| ==> (calls + [call])[i] == calls[i];
    assert (calls + [call])[|calls|] == call;
    SweepOnlyDropsOver(c, calls, call.now);
  }

  // ---------------------------------------------------------------- grants per window

  /** Answers and windows of a run, read off the record the program keeps. */
  predicate Granted(c: Limits, before: seq<Call>, call: Call) {
    Judge(c, Kept(c, before), call).ok
  }

  function WindowEnd(c: Limits, before: seq<Call>, call: Call): int {
    WindowFor(c, Kept(c, before), call).resetAt
  }

  /** How many calls of the run under a key were granted in the window that ends at end. */
  function Grants(c: Limits, calls: seq<Call>, key: string, end: int): nat {
    if calls == [] then 0
    else
      var front, call := calls[..|calls| - 1], calls[|calls| - 1];
      Grants(c, front, key, end) +
      if Key(call) == key && WindowEnd(c, front, call) == end && Granted(c, front, call) then 1 else 0
  }

  /** What the whole record says about a key's grants: its window is the last one, and counts them up to max. */
  predicate GrantsKnown(c: Limits, calls: seq<Call>, key: string, end: int) {
    var hits := Whole(c, calls);
    if key !in hits || end > hits[key].resetAt then Grants(c, calls, key, end) == 0
    else if end == hits[key].resetAt then
      hits[key].count >= 0 && Grants(c, calls, key, end) == if hits[key].count < c.max then hits[key].count else c.max
    else Grants(c, calls, key, end) <= c.max
  }

  lemma InOrderFront(calls: seq<Call>, call: Call)
    requires InOrder(calls + [call])
    ensures InOrder(calls) && (calls != [] ==> calls[|calls| - 1].now <= call.now)
  {
    assert forall i :: 0 <= i < |calls| ==> (calls + [call])[i] == calls[i];
    assert (calls + [call])[|calls|] == call;
  }

  /** With times in order a call falls in the window it would fall in had nothing been swept. */
  lemma SameWindow(c: Limits, calls: seq<Call>, call: Call)
    requires InOrder(calls + [call])
    ensures WindowFor(c, Kept(c, calls), call) == WindowFor(c, Whole(c, calls), call)
  {
    InOrderFront(calls, call);
    SweepOnlyDropsOver(c, calls, call.now);
  }

  /** No call of the run finds so many keys on record that it would sweep. */
  predicate NoneSweeps(c: Limits, calls: seq<Call>) {
    calls == [] ||
    (NoneSweeps(c, calls[..|calls| - 1])
     && |Counted(c, Kept(c, calls[..|calls| - 1]), calls[|calls| - 1])| <= SWEEP_ABOVE)
  }

  lemma {:induction false} UnsweptIsWhole(c: Limits, calls: seq<Call>)
    requires NoneSweeps(c, calls)
    ensures Kept(c, calls) == Whole(c, calls)
  {
    if calls != [] {
      UnsweptIsWhole(c, calls[..|calls| - 1]);
    }
  }

  /** Every call falls in the window it would fall in had nothing been swept. */
  predicate SameWindows(c: Limits, calls: seq<Call>) {
    calls == [] ||
    (SameWindows(c, calls[..|calls| - 1]) &&
     WindowFor(c, Kept(c, calls[..|calls| - 1]), calls[|calls| - 1])
       == WindowFor(c, Whole(c, calls[..|calls| - 1]), calls[|calls| - 1]))
  }

  lemma {:induction false} NothingForgotten(c: Limits, calls: seq<Call>)
    requires InOrder(calls) || NoneSweeps(c, calls)
    ensures SameWindows(c, calls)
  {
    hide WindowFor, Kept, Whole;
    if calls != [] {
      var front, call := calls[..|calls| - 1], calls[|calls| - 1];
      assert calls == front + [call];
      if InOrder(calls) {
        InOrderFront(front, call);
        SameWindow(c, front, call);
      } else {
        UnsweptIsWhole(c, front);
      }
      NothingForgotten(c, front);
    }
  }

  lemma {:induction false} RecordCountsGrants(c: Limits, calls: seq<Call>, key: string, end: int)
    requires c.max > 0 && c.window >= 0 && SameWindows(c, calls)
    ensures GrantsKnown(c, calls, key, end)
  {
    hide Kept;
    if calls != [] {
      var front, call := calls[..|calls| - 1], calls[|calls| - 1];
      RecordCountsGrants(c, front, key, end);
      var hits := Whole(c, front);
      if Key(call) == key && key in hits && hits[key].resetAt < call.now {
        assert WindowFor(c, hits, call).resetAt > hits[key].resetAt;
      }
    }
  }

  /** With times that never go back, whatever is swept, or in any order of times as long as no call sweeps, a key
      is granted at most max calls per window. */
  lemma AtMostMaxPerWindow(c: Limits, calls: seq<Call>, key: string, end: int)
    requires c.max > 0 && c.window >= 0 && (InOrder(calls) || NoneSweeps(c, calls))
    ensures Grants(c, calls, key, end) <= c.max
  {
    NothingForgotten(c, calls);
    RecordCountsGrants(c, calls, key, end);
  }

  /** The first max calls of a window are all granted: a call is refused if and only if max grants were given
      in the very window it falls in. */
  lemma RefusedOnlyWhenFull(c: Limits, calls: seq<Call>, call: Call)
    requires c.window >= 0 && InOrder(calls + [call])
    ensures !Granted(c, calls, call) <==>
      c.max > 0 && Grants(c, calls, Key(call), WindowEnd(c, calls, call)) == c.max
  {
    if c.max > 0 {
      InOrderFront(calls, call);
      NothingForgotten(c, calls);
      SameWindow(c, calls, call);
      RecordCountsGrants(c, calls, Key(call), WindowEnd(c, calls, call));
      if Key(call) in Whole(c, calls) {
        RecordCountsGrants(c, calls, Key(call), Whole(c, calls)[Key(call)].resetAt);
      }
    }
  }

  // ---------------------------------------------------------------- answers, from the calls alone

  /** The token's first 16 characters and the address tell callers apart, addresses holding no "|". */
  lemma CallersApart(a: Call, b: Call)
    requires '|' !in a.ip && '|' !in b.ip
    ensures Key(a) == Key(b) <==>
      a.ip == b.ip && (if |a.token| <= 16 then a.token else a.token[..16])
                   == (if |b.token| <= 16 then b.token else b.token[..16])
  {
    var x := if |a.token| <= 16 then a.token else a.token[..16];
    var y := if |b.token| <= 16 then b.token else b.token[..16];
    if x + "|" + a.ip == y + "|" + b.ip {
      LastBar(x, a.ip, y, b.ip);
    }
  }

  lemma LastBar(x: string, p: string, y: string, q: string)
    requires '|' !in p && '|' !in q && x + "|" + p == y + "|" + q
    ensures x == y && p == q
  {
    var s := x + "|" + p;
    assert s[|x|] == '|' && s[|y|] == '|';
    assert s[|x| + 1..] == p && s[|y| + 1..] == q;
    assert s[..|x|] == x && s[..|y|] == y;
    BarOnce(x, p);
    BarOnce(y, q);
  }

  lemma BarOnce(x: string, p: string)
    requires '|' !in p
    ensures forall k :: |x| < k < |x| + 1 + |p| ==> (x + "|" + p)[k] != '|'
  {
    var s := x + "|" + p;
    assert forall k :: |x| < k < |s| ==> s[k] == p[k - |x| - 1];
  }

  /** The last call of the key that opened a window: its first call, and each call that comes later than the
      window's length after the one that opened the last. */
  function Opener(c: Limits, calls: seq<Call>, key: string): (o: int)
    ensures -1 <= o < |calls|
  {
    if calls == [] then -1
    else
      var front, call := calls[..|calls| - 1], calls[|calls| - 1];
      var o := Opener(c, front, key);
      if Key(call) != key then o
      else if o == -1 || calls[o].now + c.window < call.now then |front|
      else o
  }

  /** The key's calls from the o-th on. */
  function Since(calls: seq<Call>, key: string, o: int): nat {
    if calls == [] || |calls| <= o then 0
    else Since(calls[..|calls| - 1], key, o) + if Key(calls[|calls| - 1]) == key then 1 else 0
  }

  /** The record holds of each key the end of its last window and its calls in it. */
  lemma {:induction false} WholeCounts(c: Limits, calls: seq<Call>, key: string)
    requires c.max > 0
    ensures var o, hits := Opener(c, calls, key), Whole(c, calls);
      if o == -1 then key !in hits
      else key in hits && hits[key] == Window(Since(calls, key, o), calls[o].now + c.window)
  {
    if calls != [] {
      var front, call := calls[..|calls| - 1], calls[|calls| - 1];
      WholeCounts(c, front, key);
      SinceNone(front, key);
    }
  }

  lemma SinceNone(calls: seq<Call>, key: string)
    ensures Since(calls, key, |calls|) == 0
  {
  }

  /** With times in order a call is granted if and only if it is among the first max calls of its key since the
      one that opened its window, which lasts the window's length from that call on; the hint of a refusal is the
      smallest whole number of seconds, at least one, that lands past that end. */
  lemma AllowExactly(c: Limits, calls: seq<Call>, call: Call)
    requires InOrder(calls + [call])
    ensures var all := calls + [call];
      var o := Opener(c, all, Key(call));
      var answer := Judge(c, Kept(c, calls), call);
      && 0 <= o && (answer.ok <==> c.max <= 0 || Since(all, Key(call), o) <= c.max)
      && (answer.ok ==> answer.retry == 0)
      && (!answer.ok ==>
            var end := all[o].now + c.window;
            && answer.retry >= 1 && call.now + answer.retry * SECOND > end
            && call.now + (answer.retry - 1) * SECOND <= end)
  {
    var all := calls + [call];
    assert all[..|calls|] == calls;
    SweepChangesNoAnswer(c, calls, call);
    if c.max > 0 {
      WholeCounts(c, all, Key(call));
      if !Judge(c, Whole(c, calls), call).ok {
        RetryLandsPastReset(c, Whole(c, calls), call);
      }
    }
  }

  // ---------------------------------------------------------------- a clock that goes back

  function Repeated(n: nat): string {
    if n == 0 then "" else Repeated(n - 1) + "1"
  }

  lemma {:induction false} RepeatedLength(n: nat)
    ensures |Repeated(n)| == n
  {
    if n > 0 {
      RepeatedLength(n - 1);
    }
  }

  /** The caller in question, and the n-th of many others. */
  const VICTIM := Call("K", "", 0)
  const VICTIM_KEY := "K|"

  function Other(n: nat, now: int): Call {
    Call("", Repeated(n), now)
  }

  lemma KeysDiffer(n: nat, m: nat, now: int, later: int)
    ensures Key(VICTIM) == VICTIM_KEY && Key(Other(n, now)) != VICTIM_KEY
    ensures n != m ==> Key(Other(n, now)) != Key(Other(m, later))
    ensures Key(Other(n, now)) == Key(Other(n, later))
  {
    RepeatedLength(n);
    RepeatedLength(m);
    assert Key(Other(n, now))[0] == '|' && VICTIM_KEY[0] == 'K';
    assert |Key(Other(n, now))| == n + 1 && |Key(Other(m, later))| == m + 1;
  }

  function Calls(call: Call, n: nat): (r: seq<Call>)
    ensures |r| == n
  {
    if n == 0 then [] else Calls(call, n - 1) + [call]
  }

  function Others(n: nat): (r: seq<Call>)
    ensures |r| == n
  {
    if n == 0 then [] else Others(n - 1) + [Other(n - 1, 0)]
  }

  lemma KeptSnoc(c: Limits, calls: seq<Call>, call: Call)
    ensures Kept(c, calls + [call]) == Recorded(c, Kept(c, calls), call)
    ensures Grants(c, calls + [call], VICTIM_KEY, c.window) == Grants(c, calls, VICTIM_KEY, c.window) +
      if Key(call) == VICTIM_KEY && WindowEnd(c, calls, call) == c.window && Granted(c, calls, call) then 1 else 0
  {
    assert (calls + [call])[..|calls|] == calls;
  }

  lemma VictimOnce(c: Limits, base: Hits, hits: Hits, n: nat)
    requires c.window >= 0 && 0 < n <= c.max && VICTIM_KEY !in base && |base| < SWEEP_ABOVE
    requires hits == if n == 1 then base else base[VICTIM_KEY := Window(n - 1, c.window)]
    ensures Recorded(c, hits, VICTIM) == base[VICTIM_KEY := Window(n, c.window)]
    ensures WindowFor(c, hits, VICTIM).resetAt == c.window && Judge(c, hits, VICTIM).ok
  {
    KeysDiffer(0, 0, 0, 0);
    var counted := Counted(c, hits, VICTIM);
    assert counted == base[VICTIM_KEY := Window(n, c.window)];
    assert counted.Keys == base.Keys + {VICTIM_KEY};
  }

  /** max calls of one caller at time zero, on a record that does not know him: all granted, in one window. */
  lemma {:induction false} VictimFills(c: Limits, before: seq<Call>, n: nat)
    requires c.window >= 0 && n <= c.max && c.max > 0 && VICTIM_KEY !in Kept(c, before)
    requires |Kept(c, before)| < SWEEP_ABOVE
    ensures var run, hits := before + Calls(VICTIM, n), Kept(c, before);
      && Kept(c, run) == (if n == 0 then hits else hits[VICTIM_KEY := Window(n, c.window)])
      && Grants(c, run, VICTIM_KEY, c.window) == Grants(c, before, VICTIM_KEY, c.window) + n
  {
    hide Recorded, WindowFor, Judge, Grants, Kept;
    KeysDiffer(0, 0, 0, 0);
    if n == 0 {
      assert before + [] == before;
    } else {
      VictimFills(c, before, n - 1);
      var run := before + Calls(VICTIM, n - 1);
      assert before + Calls(VICTIM, n) == run + [VICTIM];
      KeptSnoc(c, run, VICTIM);
      VictimOnce(c, Kept(c, before), Kept(c, run), n);
    }
  }

  /** All windows of the record end with the first, and the first n others are on it. */
  ghost predicate Filled(c: Limits, hits: Hits, n: nat) {
    && (forall k :: k in hits ==> hits[k].resetAt == c.window)
    && (forall m: nat :: m >= n ==> Key(Other(m, 0)) !in hits)
    && |hits| == n + 1
  }

  lemma FilledMore(c: Limits, hits: Hits, n: nat)
    requires c.window >= 0 && c.max > 0 && Filled(c, hits, n)
    ensures Filled(c, Recorded(c, hits, Other(n, 0)), n + 1)
  {
    var call := Other(n, 0);
    var counted := Counted(c, hits, call);
    assert counted == hits[Key(call) := Window(1, c.window)];
    assert counted.Keys == hits.Keys + {Key(call)};
    assert Sweep(counted, 0) == counted;
    forall m: nat | m >= n + 1 ensures Key(Other(m, 0)) !in counted {
      KeysDiffer(m, n, 0, 0);
    }
  }

  lemma {:induction false} OthersFill(c: Limits, before: seq<Call>, n: nat)
    requires c.window >= 0 && c.max > 0 && Filled(c, Kept(c, before), 0)
    ensures Filled(c, Kept(c, before + Others(n)), n)
    ensures Grants(c, before + Others(n), VICTIM_KEY, c.window) == Grants(c, before, VICTIM_KEY, c.window)
  {
    hide Recorded, Filled, Granted;
    if n == 0 {
      assert before + [] == before;
    } else {
      OthersFill(c, before, n - 1);
      var run := before + Others(n - 1);
      assert before + Others(n) == run + [Other(n - 1, 0)];
      KeptSnoc(c, run, Other(n - 1, 0));
      FilledMore(c, Kept(c, run), n - 1);
      KeysDiffer(n - 1, n - 1, 0, 0);
    }
  }

  lemma OneFilled(c: Limits)
    requires c.max > 0
    ensures Filled(c, map[VICTIM_KEY := Window(c.max, c.window)], 0)
  {
    forall m: nat ensures Key(Other(m, 0)) != VICTIM_KEY {
      KeysDiffer(m, m, 0, 0);
    }
    var hits := map[VICTIM_KEY := Window(c.max, c.window)];
    assert hits.Keys == {VICTIM_KEY};
  }

  /** A call past the end of all windows sweeps the full record down to itself. */
  lemma SweptAway(c: Limits, hits: Hits, n: nat)
    requires c.window >= 0 && c.max > 0 && Filled(c, hits, n) && n >= SWEEP_ABOVE
    ensures var call := Other(n, c.window + 1);
      Recorded(c, hits, call) == map[Key(call) := Window(1, call.now + c.window)]
  {
    var call := Other(n, c.window + 1);
    KeysDiffer(n, n, 0, c.window + 1);
    var counted := Counted(c, hits, call);
    assert counted == hits[Key(call) := Window(1, call.now + c.window)];
    assert counted.Keys == hits.Keys + {Key(call)};
    assert Key(call) in Sweep(counted, call.now);
  }

  /** Without times in order the bound fails, for every limit: a caller gets max grants at time zero, ten thousand
      others come, a late call sweeps the record, and calls still dated zero get max grants again in the window
      that ends where the first one did. */
  lemma ClockBackDoubles(c: Limits) returns (run: seq<Call>)
    requires c.window >= 0 && c.max > 0
    ensures Grants(c, run, VICTIM_KEY, c.window) == 2 * c.max && !InOrder(run)
  {
    hide Recorded, Filled, Granted, Grants, Kept, InOrder, Others, Calls;
    StartOver(c);
    VictimFills(c, [], c.max);
    run := [] + Calls(VICTIM, c.max);
    OneFilled(c);
    OthersFill(c, run, SWEEP_ABOVE);
    run := run + Others(SWEEP_ABOVE);
    var late := Other(SWEEP_ABOVE, c.window + 1);
    KeysDiffer(SWEEP_ABOVE, 0, late.now, 0);
    SweptAway(c, Kept(c, run), SWEEP_ABOVE);
    KeptSnoc(c, run, late);
    run := run + [late];
    var at := |run| - 1;
    assert Kept(c, run).Keys == {Key(late)};
    VictimFills(c, run, c.max);
    run := run + Calls(VICTIM, c.max);
    assert run[at] == late;
    LastVictim(c.max);
    GoesBack(run, at);
  }

  lemma StartOver(c: Limits)
    ensures Kept(c, []) == map[] && Grants(c, [], VICTIM_KEY, c.window) == 0
  {
  }

  lemma LastVictim(n: nat)
    requires n > 0
    ensures Calls(VICTIM, n)[n - 1] == VICTIM
  {
  }

  lemma GoesBack(run: seq<Call>, at: nat)
    requires at < |run| - 1 && run[at].now > run[|run| - 1].now
    ensures !InOrder(run)
  {
  }

  // ---------------------------------------------------------------- the retry hint

  /** The hint of a refusal is positive, lands strictly past the window's end, and is the smallest whole
      number of seconds that does. */
  lemma RetryLandsPastReset(c: Limits, hits: Hits, call: Call)
    requires !Judge(c, hits, call).ok
    ensures var retry, end := Judge(c, hits, call).retry, WindowFor(c, hits, call).resetAt;
      retry >= 1 && call.now + retry * SECOND > end && call.now + (retry - 1) * SECOND <= end
  {
    var d := WindowFor(c, hits, call).resetAt - call.now;
    assert d >= 0;
    assert d / SECOND * SECOND <= d < d / SECOND * SECOND + SECOND;
  }

  /** Calls of other keys. */
  predicate NoneOf(calls: seq<Call>, key: string) {
    forall i :: 0 <= i < |calls| ==> Key(calls[i]) != key
  }

  lemma {:induction false} OthersLeaveWindow(c: Limits, calls: seq<Call>, more: seq<Call>, key: string)
    requires NoneOf(more, key)
    ensures key in Whole(c, calls + more) <==> key in Whole(c, calls)
    ensures key in Whole(c, calls) ==> Whole(c, calls + more)[key] == Whole(c, calls)[key]
  {
    if more == [] {
      assert calls + more == calls;
    } else {
      OthersLeaveWindow(c, calls, more[..|more| - 1], key);
      assert (calls + more)[..|calls + more| - 1] == calls + more[..|more| - 1];
      assert (calls + more)[|calls + more| - 1] == more[|more| - 1];
    }
  }

  /** A refused caller who waits as told is granted, whatever the other keys did meanwhile. */
  lemma WaitingHelps(c: Limits, calls: seq<Call>, call: Call, others: seq<Call>, again: Call)
    requires !Granted(c, calls, call) && InOrder(calls + [call] + others + [again])
    requires NoneOf(others, Key(call)) && Key(again) == Key(call)
    requires again.now >= call.now + Judge(c, Kept(c, calls), call).retry * SECOND
    ensures Granted(c, calls + [call] + others, again)
  {
    var upTo := calls + [call];
    InOrderFront(upTo + others, again);
    assert forall i :: 0 <= i < |upTo| ==> (upTo + others)[i] == upTo[i];
    SameWindow(c, calls, call);
    RetryLandsPastReset(c, Whole(c, calls), call);
    assert upTo[..|calls|] == calls;
    OthersLeaveWindow(c, upTo, others, Key(call));
    SweepChangesNoAnswer(c, upTo + others, again);
  }
}
