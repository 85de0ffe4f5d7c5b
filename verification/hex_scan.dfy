/** The scan of stored HTML for content addresses: every 64-character window of a run of lower-case hex
    digits, with a coarser set of windows for oversized runs. */
module HexScan {

  const ADDRESS := 64
  const MAX_SLIDE_RUN := 4096

  predicate IsHex(c: char) {
    '0' <= c <= '9' || 'a' <= c <= 'f'
  }

  predicate AllHex(t: string, lo: int, hi: int)
    requires 0 <= lo <= hi <= |t|
  {
    forall k :: lo <= k < hi ==> IsHex(t[k])
  }

  /** A stretch of hex digits that cannot be extended on either side. */
  predicate MaximalRun(t: string, lo: int, hi: int) {
    && 0 <= lo < hi <= |t| && AllHex(t, lo, hi)
    && (lo == 0 || !IsHex(t[lo - 1]))
    && (hi == |t| || !IsHex(t[hi]))
  }

  /** The offsets at which a run of n digits is cut into addresses. */
  predicate IsCut(n: int, i: int) {
    0 <= i && i + ADDRESS <= n && (n <= MAX_SLIDE_RUN || i % ADDRESS == 0 || i == n - ADDRESS)
  }

  predicate FoundIn(t: string, lo: int, hi: int, i: int) {
    MaximalRun(t, lo, hi) && IsCut(hi - lo, i)
  }

  function Cuts(n: int): set<int> {
    set i | 0 <= i < n && IsCut(n, i)
  }

  function WindowAt(t: string, i: int): string
    requires 0 <= i && i + ADDRESS <= |t|
  {
    t[i..i + ADDRESS]
  }

  /** Everything a scan of t adds. */
  function Windows(t: string): set<string> {
    set lo, hi, i | 0 <= lo < |t| && lo < hi <= |t| && 0 <= i < hi - lo && FoundIn(t, lo, hi, i) :: WindowAt(t, lo + i)
  }

  // ---------------------------------------------------------------- what is found

  /** Only addresses: 64 lower-case hex digits that stand in the text. */
  lemma OnlyAddresses(t: string, w: string)
    requires w in Windows(t)
    ensures |w| == ADDRESS && AllHex(w, 0, ADDRESS)
    ensures exists p :: 0 <= p && p + ADDRESS <= |t| && w == WindowAt(t, p)
  {
    var lo, hi, i :| 0 <= lo < |t| && lo < hi <= |t| && 0 <= i < hi - lo && FoundIn(t, lo, hi, i)
        && w == WindowAt(t, lo + i);
    assert forall k :: 0 <= k < ADDRESS ==> w[k] == t[lo + i + k];
  }

  /** The maximal run around an address. */
  function RunStart(t: string, p: int): (lo: int)
    requires 0 <= p < |t| && IsHex(t[p])
    ensures 0 <= lo <= p && AllHex(t, lo, p + 1) && (lo == 0 || !IsHex(t[lo - 1]))
    decreases p
  {
    if p == 0 || !IsHex(t[p - 1]) then p else RunStart(t, p - 1)
  }

  function RunEnd(t: string, p: int): (hi: int)
    requires 0 <= p <= |t|
    ensures p <= hi <= |t| && AllHex(t, p, hi) && (hi == |t| || !IsHex(t[hi]))
    decreases |t| - p
  {
    if p == |t| || !IsHex(t[p]) then p else RunEnd(t, p + 1)
  }

  /** Every address in a run of at most 4096 digits is found, whatever its offset; in a longer run those at
      a multiple of 64 and the last one are. */
  lemma AddressFound(t: string, p: int)
    requires 0 <= p && p + ADDRESS <= |t| && AllHex(t, p, p + ADDRESS)
    ensures MaximalRun(t, RunStart(t, p), RunEnd(t, p))
    ensures IsCut(RunEnd(t, p) - RunStart(t, p), p - RunStart(t, p)) ==> WindowAt(t, p) in Windows(t)
    ensures RunEnd(t, p) - RunStart(t, p) <= MAX_SLIDE_RUN ==> WindowAt(t, p) in Windows(t)
  {
    var lo, hi := RunStart(t, p), RunEnd(t, p);
    assert hi < |t| ==> !(p <= hi < p + ADDRESS);
    if IsCut(hi - lo, p - lo) {
      assert FoundIn(t, lo, hi, p - lo);
      assert WindowAt(t, lo + (p - lo)) in Windows(t);
    }
  }

  /** An address at one of the cuts of its run. */
  predicate CutAddress(t: string, p: nat) {
    p + ADDRESS <= |t| && AllHex(t, p, p + ADDRESS) && IsCut(RunEnd(t, p) - RunStart(t, p), p - RunStart(t, p))
  }

  /** The scan is exact: what it finds are the addresses at the cuts of their runs, all of them and nothing else. */
  lemma WindowsExactly(t: string, w: string)
    ensures w in Windows(t) <==> exists p: nat :: CutAddress(t, p) && w == WindowAt(t, p)
  {
    hide Windows, AllHex, IsCut, RunStart, RunEnd;
    if w in Windows(t) {
      FoundAtCut(t, w);
    }
    forall p: nat | CutAddress(t, p) ensures WindowAt(t, p) in Windows(t) {
      CutFound(t, p);
    }
  }

  lemma CutFound(t: string, p: nat)
    requires CutAddress(t, p)
    ensures WindowAt(t, p) in Windows(t)
  {
    AddressFound(t, p);
  }

  lemma FoundAtCut(t: string, w: string)
    requires w in Windows(t)
    ensures exists p: nat :: CutAddress(t, p) && w == WindowAt(t, p)
  {
    hide RunStart, RunEnd, MaximalRun, AllHex, IsHex;
    var lo, hi, i :| 0 <= lo < |t| && lo < hi <= |t| && 0 <= i < hi - lo && FoundIn(t, lo, hi, i)
        && w == WindowAt(t, lo + i);
    InRun(t, lo, hi, lo + i, lo + i + ADDRESS);
    RunUnique(t, lo, hi, lo + i);
    assert CutAddress(t, lo + i);
  }

  lemma InRun(t: string, lo: int, hi: int, p: int, q: int)
    requires MaximalRun(t, lo, hi) && lo <= p < q <= hi
    ensures AllHex(t, p, q) && 0 <= p < |t| && IsHex(t[p])
  {
  }

  lemma RunUnique(t: string, lo: int, hi: int, p: int)
    requires MaximalRun(t, lo, hi) && lo <= p < hi
    ensures RunStart(t, p) == lo && RunEnd(t, p) == hi
  {
    var a, b := RunStart(t, p), RunEnd(t, p);
    assert lo > 0 ==> !(a <= lo - 1);
    assert a > 0 ==> !(lo <= a - 1);
    assert b < |t| ==> !(p <= b < hi);
    assert hi < |t| ==> !(p <= hi < b);
  }

  /** An address that stands alone, as in a URL, is always found. */
  lemma CleanReferenceFound(before: string, sha: string, after: string)
    requires |sha| == ADDRESS && AllHex(sha, 0, ADDRESS)
    requires before == "" || !IsHex(before[|before| - 1])
    requires after == "" || !IsHex(after[0])
    ensures sha in Windows(before + sha + after)
  {
    var t, p := before + sha + after, |before|;
    assert WindowAt(t, p) == sha;
    assert forall k :: p <= k < p + ADDRESS ==> t[k] == sha[k - p];
    assert p > 0 ==> t[p - 1] == before[|before| - 1];
    assert p + ADDRESS < |t| ==> t[p + ADDRESS] == after[0];
    RunUnique(t, p, p + ADDRESS, p);
    AddressFound(t, p);
  }

  // ---------------------------------------------------------------- the loops

  /** The matches of [0-9a-f]{64,}, left to right: the maximal runs of at least 64 digits. */
  method FindRuns(t: string) returns (runs: seq<(int, int)>)
    ensures forall r :: r in runs ==> MaximalRun(t, r.0, r.1) && r.1 - r.0 >= ADDRESS
    ensures forall lo, hi :: MaximalRun(t, lo, hi) && hi - lo >= ADDRESS ==> (lo, hi) in runs
    ensures forall j, k :: 0 <= j < k < |runs| ==> runs[j].1 < runs[k].0
  {
    runs := [];
    var i := 0;
    while i < |t|
      invariant 0 <= i <= |t|
      invariant i == 0 || i == |t| || !IsHex(t[i - 1])
      invariant forall r :: r in runs ==> MaximalRun(t, r.0, r.1) && r.1 - r.0 >= ADDRESS && r.1 < i + 1
      invariant forall r :: r in runs ==> r.1 < i || i == |t|
      invariant forall lo, hi :: MaximalRun(t, lo, hi) && hi - lo >= ADDRESS && lo < i ==> (lo, hi) in runs
      invariant forall j, k :: 0 <= j < k < |runs| ==> runs[j].1 < runs[k].0
    {
      var start := i;
      while i < |t| && IsHex(t[i])
        invariant start <= i <= |t| && AllHex(t, start, i)
      {
        i := i + 1;
      }
      if i - start >= ADDRESS {
        runs := runs + [(start, i)];
      }
      forall lo, hi | MaximalRun(t, lo, hi) && hi - lo >= ADDRESS && start <= lo <= i
        ensures (lo, hi) in runs
      {
        assert lo < |t| && IsHex(t[lo]);
        if lo < i {
          RunUnique(t, start, i, lo);
          RunUnique(t, lo, hi, lo);
        }
      }
      if i < |t| {
        i := i + 1;
      }
    }
  }

  /** The set of addresses a scan fills in place. */
  class References {
    var shas: set<string>

    constructor ()
      ensures shas == {}
    {
      shas := {};
    }

    method Add(w: string)
      modifies this
      ensures shas == old(shas) + {w}
    {
      if w !in shas {
        shas := shas + {w};
      }
    }

    /** Every window of t[lo..hi]. */
    method Slide(t: string, lo: int, hi: int)
      requires 0 <= lo < hi <= |t| && hi - lo <= MAX_SLIDE_RUN
      modifies this
      ensures shas == old(shas) + WindowsOf(t, lo, hi, Cuts(hi - lo))
    {
      ghost var before, cuts: set<int> := shas, {};
      var n, i := hi - lo, 0;
      while i + ADDRESS <= n
        invariant 0 <= i && (i == 0 || i + ADDRESS <= n + 1)
        invariant forall k :: k in cuts <==> 0 <= k < i
        invariant shas == before + WindowsOf(t, lo, hi, cuts)
      {
        Add(WindowAt(t, lo + i));
        WindowsOfAdd(t, lo, hi, cuts, i);
        cuts := cuts + {i};
        i := i + 1;
      }
      assert cuts == Cuts(n);
    }

    /** The windows at multiples of 64, and the last one. */
    method Stride(t: string, lo: int, hi: int)
      requires 0 <= lo < hi <= |t| && hi - lo > MAX_SLIDE_RUN
      modifies this
      ensures shas == old(shas) + WindowsOf(t, lo, hi, Cuts(hi - lo))
    {
      hide WindowsOf, WindowAt;
      ghost var before, cuts: set<int> := shas, {};
      NoCuts(t, lo, hi);
      var n, i := hi - lo, 0;
      while i + ADDRESS <= n
        invariant 0 <= i <= n && i % ADDRESS == 0
        invariant forall k :: k in cuts <==> 0 <= k < i && k + ADDRESS <= n && k % ADDRESS == 0
        invariant shas == before + WindowsOf(t, lo, hi, cuts)
      {
        Add(WindowAt(t, lo + i));
        WindowsOfAdd(t, lo, hi, cuts, i);
        cuts := cuts + {i};
        i := i + ADDRESS;
      }
      Add(WindowAt(t, hi - ADDRESS));
      WindowsOfAdd(t, lo, hi, cuts, n - ADDRESS);
      assert cuts + {n - ADDRESS} == Cuts(n);
    }

    /** What the scan adds for one match. */
    method AddRun(t: string, lo: int, hi: int)
      requires MaximalRun(t, lo, hi)
      modifies this
      ensures shas == old(shas) + RunWindows(t, lo, hi)
    {
      if hi - lo <= MAX_SLIDE_RUN {
        Slide(t, lo, hi);
      } else {
        Stride(t, lo, hi);
      }
    }

    /** scanInto: adds exactly the windows of the text and forgets nothing. */
    method ScanInto(html: string)
      modifies this
      ensures shas == old(shas) + Windows(html)
    {
      ghost var before := shas;
      var runs := FindRuns(html);
      var j := 0;
      while j < |runs|
        invariant 0 <= j <= |runs|
        invariant forall w :: w in shas <==>
          w in before || exists m :: 0 <= m < j && w in RunWindows(html, runs[m].0, runs[m].1)
      {
        AddRun(html, runs[j].0, runs[j].1);
        j := j + 1;
      }
      WindowsByRun(html, runs);
    }
  }

  function WindowsOf(t: string, lo: int, hi: int, cuts: set<int>): set<string>
    requires 0 <= lo <= hi <= |t| && forall k :: k in cuts ==> 0 <= k && k + ADDRESS <= hi - lo
  {
    set k | k in cuts :: WindowAt(t, lo + k)
  }

  lemma NoCuts(t: string, lo: int, hi: int)
    requires 0 <= lo <= hi <= |t|
    ensures WindowsOf(t, lo, hi, {}) == {}
  {
  }

  lemma WindowsOfAdd(t: string, lo: int, hi: int, cuts: set<int>, i: int)
    requires 0 <= lo <= hi <= |t| && forall k :: k in cuts + {i} ==> 0 <= k && k + ADDRESS <= hi - lo
    ensures WindowsOf(t, lo, hi, cuts + {i}) == WindowsOf(t, lo, hi, cuts) + {WindowAt(t, lo + i)}
  {
    assert i in cuts + {i};
  }

  /** The windows of one run. */
  function RunWindows(t: string, lo: int, hi: int): set<string>
    requires MaximalRun(t, lo, hi)
  {
    WindowsOf(t, lo, hi, Cuts(hi - lo))
  }

  lemma WindowsByRun(t: string, runs: seq<(int, int)>)
    requires forall r :: r in runs ==> MaximalRun(t, r.0, r.1) && r.1 - r.0 >= ADDRESS
    requires forall lo, hi :: MaximalRun(t, lo, hi) && hi - lo >= ADDRESS ==> (lo, hi) in runs
    ensures forall w :: w in Windows(t) <==> exists m :: 0 <= m < |runs| && w in RunWindows(t, runs[m].0, runs[m].1)
  {
    forall w | w in Windows(t) ensures exists m :: 0 <= m < |runs| && w in RunWindows(t, runs[m].0, runs[m].1) {
      var lo, hi, i :| 0 <= lo < |t| && lo < hi <= |t| && 0 <= i < hi - lo && FoundIn(t, lo, hi, i)
          && w == WindowAt(t, lo + i);
      assert (lo, hi) in runs;
      var m :| 0 <= m < |runs| && runs[m] == (lo, hi);
      assert i in Cuts(hi - lo);
      assert w in RunWindows(t, runs[m].0, runs[m].1);
    }
    forall w, m | 0 <= m < |runs| && w in RunWindows(t, runs[m].0, runs[m].1) ensures w in Windows(t) {
      var lo, hi := runs[m].0, runs[m].1;
      assert runs[m] in runs;
      var i :| i in Cuts(hi - lo) && w == WindowAt(t, lo + i);
      assert FoundIn(t, lo, hi, i);
    }
  }
}
