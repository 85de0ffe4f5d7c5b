/** The comment log as a value: stamping ids, collapsing repeated ids, and the stable order in which
    a fold reads it. The laws here say what every snapshot depends on. */
module EventLog {
  import opened CommentTypes

  type Log = seq<CommentEvent>

  // ---------------------------------------------------------------- event ids

  predicate IsReaction(kind: EventKind) {
    kind.ReactionAdded? || kind.ReactionRemoved?
  }

  predicate IsStateFlag(kind: EventKind) {
    kind.MarkedApplied? || kind.MarkedOpen? || kind.Deleted?
  }

  /** Reactions and state flags get an id computed from the payload, so a duplicate collapses. */
  function EventEid(e: CommentEvent, serial: nat): (eid: Eid)
    ensures !eid.NoEid?
  {
    if IsReaction(e.kind) then ReactionEid(e.kind.ReactionAdded?, e.emoji + ":" + e.user)
    else if IsStateFlag(e.kind) then StateEid(e.kind, e.atVersion)
    else OneShotEid(serial)
  }

  function Stamp(e: CommentEvent, serial: nat): CommentEvent {
    if e.eid.NoEid? then e.(eid := EventEid(e, serial)) else e
  }

  predicate NeedsSerial(e: CommentEvent) {
    e.eid.NoEid? && !IsReaction(e.kind) && !IsStateFlag(e.kind)
  }

  /** The serial number after stamping s. */
  function NextSerial(s: Log, serial: nat): (next: nat)
    ensures serial <= next
  {
    if s == [] then serial
    else NextSerial(s[..|s| - 1], serial) + (if NeedsSerial(s[|s| - 1]) then 1 else 0)
  }

  /** The events after every missing id is filled in. */
  function Backfill(s: Log, serial: nat): (r: Log)
    ensures |r| == |s|
    ensures Stamped(r)
    ensures forall i :: 0 <= i < |s| ==> r[i] == s[i].(eid := r[i].eid) && (s[i].eid.NoEid? || r[i] == s[i])
  {
    if s == [] then []
    else Backfill(s[..|s| - 1], serial) + [Stamp(s[|s| - 1], NextSerial(s[..|s| - 1], serial))]
  }

  lemma {:induction false} BackfillStamped(s: Log, serial: nat)
    requires Stamped(s)
    ensures Backfill(s, serial) == s && NextSerial(s, serial) == serial
  {
    if s != [] {
      BackfillStamped(s[..|s| - 1], serial);
      assert s == s[..|s| - 1] + [s[|s| - 1]];
    }
  }

  predicate Stamped(s: Log) {
    forall i :: 0 <= i < |s| ==> !s[i].eid.NoEid?
  }

  // ---------------------------------------------------------------- dedup

  /** The position of the entry with this id, or |s|. */
  function IndexOfEid(s: Log, eid: Eid): (i: nat)
    ensures i <= |s|
    ensures i < |s| ==> s[i].eid == eid
    ensures forall j :: 0 <= j < i ==> s[j].eid != eid
  {
    if s == [] then 0
    else if s[0].eid == eid then 0
    else 1 + IndexOfEid(s[1..], eid)
  }

  predicate HasEid(s: Log, eid: Eid) {
    exists i :: 0 <= i < |s| && s[i].eid == eid
  }

  /** One more event: a new id goes to the end, a repeated id replaces the earlier entry in place. */
  function Upsert(s: Log, e: CommentEvent): Log {
    var i := IndexOfEid(s, e.eid);
    if e.eid.NoEid? || i == |s| then s + [e] else s[i := e]
  }

  /** Last payload, first position. */
  function Dedup(s: Log): Log {
    if s == [] then [] else Upsert(Dedup(s[..|s| - 1]), s[|s| - 1])
  }

  predicate DistinctEids(s: Log) {
    forall i, j :: 0 <= i < j < |s| && !s[i].eid.NoEid? ==> s[i].eid != s[j].eid
  }

  lemma DedupSnoc(s: Log, e: CommentEvent)
    ensures Dedup(s + [e]) == Upsert(Dedup(s), e)
  {
    assert (s + [e])[..|s|] == s;
  }

  lemma {:induction false} DedupDistinct(s: Log)
    ensures DistinctEids(Dedup(s))
    ensures |Dedup(s)| <= |s|
    ensures Stamped(s) ==> Stamped(Dedup(s))
  {
    if s != [] {
      DedupDistinct(s[..|s| - 1]);
    }
  }

  lemma UpsertEids(d: Log, e: CommentEvent, eid: Eid)
    ensures HasEid(Upsert(d, e), eid) <==> HasEid(d, eid) || e.eid == eid
  {
    var u := Upsert(d, e);
    var i := IndexOfEid(d, e.eid);
    assert u[if e.eid.NoEid? || i == |d| then |d| else i].eid == e.eid;
    if HasEid(d, eid) {
      var k :| 0 <= k < |d| && d[k].eid == eid;
      assert u[k].eid == eid;
    }
    if HasEid(u, eid) && e.eid != eid {
      var k :| 0 <= k < |u| && u[k].eid == eid;
      assert d[k].eid == eid;
    }
  }

  lemma HasEidSnoc(s: Log, e: CommentEvent, eid: Eid)
    ensures HasEid(s + [e], eid) <==> HasEid(s, eid) || e.eid == eid
  {
    var t := s + [e];
    assert t[|s|] == e;
    if HasEid(s, eid) {
      var k :| 0 <= k < |s| && s[k].eid == eid;
      assert t[k].eid == eid;
    }
  }

  lemma {:induction false} DedupEids(s: Log, eid: Eid)
    ensures HasEid(Dedup(s), eid) <==> HasEid(s, eid)
  {
    if s != [] {
      var t, e := s[..|s| - 1], s[|s| - 1];
      DedupEids(t, eid);
      UpsertEids(Dedup(t), e, eid);
      HasEidSnoc(t, e, eid);
      assert s == t + [e];
    }
  }

  /** The entry kept under an id is the last one written under it. */
  lemma {:induction false} DedupKeepsLast(s: Log, k: nat, i: nat)
    requires k < |s| && i < |Dedup(s)|
    requires !s[k].eid.NoEid? && Dedup(s)[i].eid == s[k].eid
    requires forall j :: k < j < |s| ==> s[j].eid != s[k].eid
    ensures Dedup(s)[i] == s[k]
  {
    var t, e := s[..|s| - 1], s[|s| - 1];
    var d := Dedup(t);
    DedupDistinct(t);
    DedupDistinct(s);
    if k == |s| - 1 {
      var p := IndexOfEid(d, e.eid);
      assert Dedup(s)[p].eid == e.eid;
    } else {
      assert e.eid != s[k].eid;
      assert i < |d| && d[i].eid == s[k].eid;
      DedupKeepsLast(t, k, i);
    }
  }

  /** Entries come in the order in which their ids first appear. */
  lemma {:induction false} DedupKeepsFirstPosition(s: Log, t: Log, i: nat)
    requires i < |Dedup(s)|
    ensures |Dedup(s)| <= |Dedup(s + t)|
    ensures Dedup(s + t)[i].eid == Dedup(s)[i].eid
  {
    if t == [] {
      assert s + t == s;
    } else {
      var u, e := t[..|t| - 1], t[|t| - 1];
      DedupKeepsFirstPosition(s, u, i);
      assert s + t == (s + u) + [e];
      DedupSnoc(s + u, e);
    }
  }

  lemma {:induction false} DedupOfDistinct(s: Log)
    requires DistinctEids(s)
    ensures Dedup(s) == s
  {
    if s != [] {
      var t, e := s[..|s| - 1], s[|s| - 1];
      DedupOfDistinct(t);
      assert s == t + [e];
    }
  }

  lemma DedupIdempotent(s: Log)
    ensures Dedup(Dedup(s)) == Dedup(s)
  {
    DedupDistinct(s);
    DedupOfDistinct(Dedup(s));
  }

  /** The length test compaction uses is exact: nothing was dropped only if nothing changed. */
  lemma {:induction false} DedupSameLength(s: Log)
    requires |Dedup(s)| == |s|
    ensures Dedup(s) == s
  {
    if s != [] {
      var t, e := s[..|s| - 1], s[|s| - 1];
      DedupDistinct(t);
      DedupSameLength(t);
      assert s == t + [e];
    }
  }

  // ---------------------------------------------------------------- stable order

  predicate SortedByVersion(s: Log) {
    forall i, j :: 0 <= i < j < |s| ==> s[i].atVersion <= s[j].atVersion
  }

  /** Put e behind every event of the same or an earlier version. */
  function Insert(s: Log, e: CommentEvent): Log {
    if s == [] || s[|s| - 1].atVersion <= e.atVersion then s + [e]
    else Insert(s[..|s| - 1], e) + [s[|s| - 1]]
  }

  function StableSort(s: Log): Log {
    if s == [] then [] else Insert(StableSort(s[..|s| - 1]), s[|s| - 1])
  }

  /** What a fold reads: the collapsed log in version order. */
  function Ordered(s: Log): Log {
    StableSort(Dedup(s))
  }

  /** The subsequence of one version. */
  function AtOnly(s: Log, v: int): (r: Log)
    ensures forall i :: 0 <= i < |r| ==> r[i].atVersion == v
  {
    if s == [] then []
    else AtOnly(s[..|s| - 1], v) + (if s[|s| - 1].atVersion == v then [s[|s| - 1]] else [])
  }

  predicate Visible(e: CommentEvent, at: int) {
    IsFiniteVersion(e.atVersion) && e.atVersion <= at
  }

  /** The events a reader of version at sees, in log order. */
  function VisibleAt(s: Log, at: int): Log {
    if s == [] then []
    else VisibleAt(s[..|s| - 1], at) + (if Visible(s[|s| - 1], at) then [s[|s| - 1]] else [])
  }

  lemma {:induction false} VisibleAppend(s: Log, t: Log, at: int)
    ensures VisibleAt(s + t, at) == VisibleAt(s, at) + VisibleAt(t, at)
  {
    if t == [] {
      assert s + t == s;
    } else {
      assert (s + t)[..|s + t| - 1] == s + t[..|t| - 1];
      VisibleAppend(s, t[..|t| - 1], at);
    }
  }

  lemma {:induction false} AtOnlyAppend(s: Log, t: Log, v: int)
    ensures AtOnly(s + t, v) == AtOnly(s, v) + AtOnly(t, v)
  {
    if t == [] {
      assert s + t == s;
    } else {
      assert (s + t)[..|s + t| - 1] == s + t[..|t| - 1];
      AtOnlyAppend(s, t[..|t| - 1], v);
    }
  }

  lemma {:induction false} InsertMembers(s: Log, e: CommentEvent)
    ensures forall x :: x in Insert(s, e) <==> x == e || x in s
  {
    if !(s == [] || s[|s| - 1].atVersion <= e.atVersion) {
      InsertMembers(s[..|s| - 1], e);
      assert forall x :: x in s <==> x in s[..|s| - 1] || x == s[|s| - 1];
    }
  }

  lemma {:induction false} InsertSorted(s: Log, e: CommentEvent)
    requires SortedByVersion(s)
    ensures SortedByVersion(Insert(s, e))
  {
    if !(s == [] || s[|s| - 1].atVersion <= e.atVersion) {
      var t, x := s[..|s| - 1], s[|s| - 1];
      InsertSorted(t, e);
      InsertMembers(t, e);
      var r := Insert(t, e);
      forall i | 0 <= i < |r| ensures r[i].atVersion <= x.atVersion {
        assert r[i] == e || r[i] in t;
      }
    }
  }

  lemma {:induction false} StableSortSorted(s: Log)
    ensures SortedByVersion(StableSort(s))
  {
    if s != [] {
      StableSortSorted(s[..|s| - 1]);
      InsertSorted(StableSort(s[..|s| - 1]), s[|s| - 1]);
    }
  }

  lemma {:induction false} InsertKeepsEachVersion(s: Log, e: CommentEvent, v: int)
    ensures AtOnly(Insert(s, e), v) == AtOnly(s, v) + (if e.atVersion == v then [e] else [])
  {
    if s == [] || s[|s| - 1].atVersion <= e.atVersion {
      assert (s + [e])[..|s|] == s;
    } else {
      var t, x := s[..|s| - 1], s[|s| - 1];
      InsertKeepsEachVersion(t, e, v);
      assert (Insert(t, e) + [x])[..|Insert(t, e)|] == Insert(t, e);
    }
  }

  /** The sort is stable: each version keeps its own subsequence. */
  lemma {:induction false} StableSortKeepsEachVersion(s: Log, v: int)
    ensures AtOnly(StableSort(s), v) == AtOnly(s, v)
  {
    if s != [] {
      var t, e := s[..|s| - 1], s[|s| - 1];
      StableSortKeepsEachVersion(t, v);
      StableSortSorted(t);
      InsertKeepsEachVersion(StableSort(t), e, v);
    }
  }

  lemma {:induction false} AtOnlyNone(s: Log, v: int)
    requires forall i :: 0 <= i < |s| ==> s[i].atVersion != v
    ensures AtOnly(s, v) == []
  {
    if s != [] {
      AtOnlyNone(s[..|s| - 1], v);
    }
  }

  lemma AtOnlyLast(s: Log, v: int)
    requires s != []
    ensures s[|s| - 1].atVersion == v ==> |AtOnly(s, v)| > 0
    ensures s[|s| - 1].atVersion == v ==> AtOnly(s, v)[|AtOnly(s, v)| - 1] == s[|s| - 1]
    ensures s[|s| - 1].atVersion == v ==> AtOnly(s[..|s| - 1], v) == AtOnly(s, v)[..|AtOnly(s, v)| - 1]
    ensures s[|s| - 1].atVersion != v ==> AtOnly(s[..|s| - 1], v) == AtOnly(s, v)
  {
  }

  /** Sortedness and the per-version subsequences determine the order, so any stable sort by version
      (Go's sort.SliceStable included) computes StableSort. */
  lemma {:induction false} StableOrderUnique(a: Log, b: Log)
    requires SortedByVersion(a) && SortedByVersion(b)
    requires forall v :: AtOnly(a, v) == AtOnly(b, v)
    ensures a == b
    decreases |a|
  {
    if a == [] {
      if b != [] {
        AtOnlyLast(b, b[|b| - 1].atVersion);
      }
    } else {
      var x := a[|a| - 1];
      AtOnlyLast(a, x.atVersion);
      assert AtOnly(b, x.atVersion) != [];
      var y := b[|b| - 1];
      AtOnlyLast(b, y.atVersion);
      LastVersionIsGreatest(a, y.atVersion);
      LastVersionIsGreatest(b, x.atVersion);
      var p, q := a[..|a| - 1], b[..|b| - 1];
      forall v ensures AtOnly(p, v) == AtOnly(q, v) {
        AtOnlyLast(a, v);
        AtOnlyLast(b, v);
      }
      StableOrderUnique(p, q);
      assert a == p + [x] && b == q + [y];
    }
  }

  lemma {:induction false} LastVersionIsGreatest(s: Log, v: int)
    requires SortedByVersion(s) && s != [] && AtOnly(s, v) != []
    ensures v <= s[|s| - 1].atVersion
  {
    if s[|s| - 1].atVersion < v {
      AtOnlyNone(s, v);
    }
  }

  /** A version's own subsequence of the collapsed log is all its readers depend on: logs that agree
      on it for every version are read in the same order, however versions are interleaved. */
  lemma CanonicalOrder(s: Log, t: Log)
    requires forall v :: AtOnly(Dedup(s), v) == AtOnly(Dedup(t), v)
    ensures Ordered(s) == Ordered(t)
  {
    StableSortSorted(Dedup(s));
    StableSortSorted(Dedup(t));
    forall v ensures AtOnly(Ordered(s), v) == AtOnly(Ordered(t), v) {
      StableSortKeepsEachVersion(Dedup(s), v);
      StableSortKeepsEachVersion(Dedup(t), v);
      assert AtOnly(Dedup(s), v) == AtOnly(Dedup(t), v);
    }
    StableOrderUnique(Ordered(s), Ordered(t));
  }

  lemma {:induction false} VisibleAll(s: Log, at: int)
    requires forall i :: 0 <= i < |s| ==> Visible(s[i], at)
    ensures VisibleAt(s, at) == s
  {
    if s != [] {
      VisibleAll(s[..|s| - 1], at);
      assert s == s[..|s| - 1] + [s[|s| - 1]];
    }
  }

  /** The events a reader of version w sees after the last one of version v or earlier. */
  function LateAt(o: Log, v: int, w: int): (r: Log)
    ensures forall i :: 0 <= i < |r| ==> v < r[i].atVersion <= w
    ensures w <= v ==> r == []
  {
    if o == [] || o[|o| - 1].atVersion <= v then []
    else LateAt(o[..|o| - 1], v, w) + (if Visible(o[|o| - 1], w) then [o[|o| - 1]] else [])
  }

  lemma {:induction false} LateAtSplit(o: Log, v: int, w: int)
    requires SortedByVersion(o) && v <= w
    ensures VisibleAt(o, w) == VisibleAt(o, v) + LateAt(o, v, w)
  {
    if o == [] || o[|o| - 1].atVersion <= v {
      VisibleMonotone(o, v, w);
    } else {
      LateAtSplit(o[..|o| - 1], v, w);
    }
  }

  lemma {:induction false} InsertUnseen(o: Log, e: CommentEvent, w: int)
    requires w < e.atVersion
    ensures VisibleAt(Insert(o, e), w) == VisibleAt(o, w)
  {
    if o == [] || o[|o| - 1].atVersion <= e.atVersion {
      assert (o + [e])[..|o|] == o;
    } else {
      var t, x := o[..|o| - 1], o[|o| - 1];
      InsertUnseen(t, e, w);
      assert (Insert(t, e) + [x])[..|Insert(t, e)|] == Insert(t, e);
    }
  }

  lemma {:induction false} InsertSeen(o: Log, e: CommentEvent, w: int)
    requires SortedByVersion(o) && Visible(e, w)
    ensures VisibleAt(Insert(o, e), w) == VisibleAt(o, e.atVersion) + ([e] + LateAt(o, e.atVersion, w))
  {
    if o == [] || o[|o| - 1].atVersion <= e.atVersion {
      VisibleSnoc(o, e, w);
      VisibleMonotone(o, e.atVersion, w);
      assert [e] + LateAt(o, e.atVersion, w) == [e];
    } else {
      InsertSeen(o[..|o| - 1], e, w);
      assert o == o[..|o| - 1] + [o[|o| - 1]];
      InsertSeenLater(o[..|o| - 1], o[|o| - 1], e, w);
    }
  }

  lemma InsertSeenLater(t: Log, x: CommentEvent, e: CommentEvent, w: int)
    requires x.atVersion > e.atVersion
    requires VisibleAt(Insert(t, e), w) == VisibleAt(t, e.atVersion) + ([e] + LateAt(t, e.atVersion, w))
    ensures VisibleAt(Insert(t + [x], e), w) ==
      VisibleAt(t + [x], e.atVersion) + ([e] + LateAt(t + [x], e.atVersion, w))
  {
    hide VisibleAt, LateAt, Insert;
    InsertBeforeLast(t, x, e);
    VisibleSnoc(Insert(t, e), x, w);
    VisibleSnoc(t, x, e.atVersion);
    LateSnoc(t, x, e.atVersion, w);
    if Visible(x, w) {
      Regrouped(VisibleAt(t, e.atVersion), e, LateAt(t, e.atVersion, w), x);
    }
  }

  lemma Regrouped(a: Log, e: CommentEvent, late: Log, x: CommentEvent)
    ensures (a + ([e] + late)) + [x] == a + ([e] + (late + [x]))
  {
  }

  lemma InsertBeforeLast(t: Log, x: CommentEvent, e: CommentEvent)
    requires x.atVersion > e.atVersion
    ensures Insert(t + [x], e) == Insert(t, e) + [x]
  {
    assert (t + [x])[..|t|] == t;
  }

  lemma LateSnoc(t: Log, x: CommentEvent, v: int, w: int)
    requires x.atVersion > v
    ensures LateAt(t + [x], v, w) == if Visible(x, w) then LateAt(t, v, w) + [x] else LateAt(t, v, w)
  {
    assert (t + [x])[..|t|] == t;
  }

  lemma VisibleSnoc(s: Log, x: CommentEvent, w: int)
    ensures VisibleAt(s + [x], w) == if Visible(x, w) then VisibleAt(s, w) + [x] else VisibleAt(s, w)
  {
    assert (s + [x])[..|s|] == s;
  }

  /** Appending an event under a new id, seen from every version: readers of earlier versions see
      the old reading, readers of its own version see it last, readers of a later version see it
      between the events up to its version and the later ones. */
  lemma AppendOrder(s: Log, e: CommentEvent, w: int)
    requires e.eid.NoEid? || !HasEid(s, e.eid)
    requires IsFiniteVersion(e.atVersion)
    ensures w < e.atVersion ==> VisibleAt(Ordered(s + [e]), w) == VisibleAt(Ordered(s), w)
    ensures w >= e.atVersion ==>
      VisibleAt(Ordered(s + [e]), w) == VisibleAt(Ordered(s), e.atVersion) + ([e] + LateAt(Ordered(s), e.atVersion, w))
  {
    AppendNewEid(s, e);
    StableSortSorted(Dedup(s));
    if w < e.atVersion {
      InsertUnseen(Ordered(s), e, w);
    } else {
      InsertSeen(Ordered(s), e, w);
    }
  }

  lemma AppendNewEid(s: Log, e: CommentEvent)
    requires e.eid.NoEid? || !HasEid(s, e.eid)
    ensures Dedup(s + [e]) == Dedup(s) + [e]
    ensures Ordered(s + [e]) == Insert(Ordered(s), e)
  {
    DedupSnoc(s, e);
    DedupEids(s, e.eid);
    var d := Dedup(s);
    assert (d + [e])[..|d|] == d;
  }

  lemma {:induction false} VisibleMonotone(s: Log, v: int, w: int)
    requires v <= w && forall i :: 0 <= i < |s| ==> s[i].atVersion <= v
    ensures VisibleAt(s, v) == VisibleAt(s, w)
  {
    if s != [] {
      VisibleMonotone(s[..|s| - 1], v, w);
    }
  }

  lemma {:induction false} VisibleBounds(s: Log, w: int)
    ensures forall i :: 0 <= i < |VisibleAt(s, w)| ==> VisibleAt(s, w)[i] in s && Visible(VisibleAt(s, w)[i], w)
    ensures forall j :: 0 <= j < |s| && Visible(s[j], w) ==> s[j] in VisibleAt(s, w)
  {
    if s != [] {
      VisibleBounds(s[..|s| - 1], w);
    }
  }

  lemma {:induction false} StableSortMembers(s: Log)
    ensures forall x :: x in StableSort(s) <==> x in s
  {
    if s != [] {
      StableSortMembers(s[..|s| - 1]);
      InsertMembers(StableSort(s[..|s| - 1]), s[|s| - 1]);
      assert forall x :: x in s <==> x in s[..|s| - 1] || x == s[|s| - 1];
    }
  }

  /** What a reader of version at sees, as a set: the entries of the collapsed log up to it. */
  lemma ReadersSee(s: Log, at: int, e: CommentEvent)
    ensures e in VisibleAt(Ordered(s), at) <==> e in Dedup(s) && Visible(e, at)
  {
    VisibleBounds(Ordered(s), at);
    StableSortMembers(Dedup(s));
  }
}
