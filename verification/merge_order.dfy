/** Two writers who append to the same log at the same time: when does the order in which their parts are merged
    not matter? */
module MergeOrder {
  import opened CommentTypes
  import opened EventLog
  import opened CommentFold

  // ---------------------------------------------------------------- collapsing what is appended

  /** The entry that counts under the id of x once u is written after it. */
  function Latest(x: CommentEvent, u: Log): CommentEvent {
    if HasEid(u, x.eid) then (HasIndex(u, x.eid); u[IndexOfEid(u, x.eid)]) else x
  }

  lemma HasIndex(s: Log, eid: Eid)
    ensures HasEid(s, eid) <==> IndexOfEid(s, eid) < |s|
  {
  }

  function Replaced(d: Log, u: Log): (r: Log)
    ensures |r| == |d| && forall i :: 0 <= i < |d| ==> r[i] == Latest(d[i], u) && r[i].eid == d[i].eid
  {
    seq(|d|, i requires 0 <= i < |d| => Latest(d[i], u))
  }

  /** The entries of u under ids that d does not have. */
  function Minus(u: Log, d: Log): Log {
    if u == [] then []
    else if HasEid(d, u[|u| - 1].eid) then Minus(u[..|u| - 1], d)
    else Minus(u[..|u| - 1], d) + [u[|u| - 1]]
  }

  lemma MinusSnoc(u: Log, x: CommentEvent, d: Log)
    ensures Minus(u + [x], d) == if HasEid(d, x.eid) then Minus(u, d) else Minus(u, d) + [x]
  {
    assert (u + [x])[..|u|] == u;
  }

  lemma {:induction false} MinusAppend(u: Log, w: Log, d: Log)
    ensures Minus(u + w, d) == Minus(u, d) + Minus(w, d)
  {
    if w == [] {
      assert u + w == u;
    } else {
      assert (u + w)[..|u + w| - 1] == u + w[..|w| - 1];
      MinusAppend(u, w[..|w| - 1], d);
    }
  }

  lemma {:induction false} MinusHas(u: Log, d: Log)
    ensures forall x :: x in Minus(u, d) <==> x in u && !HasEid(d, x.eid)
    ensures forall eid :: HasEid(Minus(u, d), eid) <==> HasEid(u, eid) && !HasEid(d, eid)
  {
    hide HasEid;
    if u != [] {
      var front, x := u[..|u| - 1], u[|u| - 1];
      assert u == front + [x];
      MinusHas(front, d);
      MinusSnoc(front, x, d);
      forall eid ensures HasEid(Minus(u, d), eid) <==> HasEid(u, eid) && !HasEid(d, eid) {
        HasEidSnoc(front, x, eid);
        HasEidSnoc(Minus(front, d), x, eid);
      }
    } else {
      NoEids();
    }
  }

  lemma NoEids()
    ensures forall eid :: !HasEid([], eid)
  {
  }

  lemma {:induction false} MinusSame(u: Log, d: Log, d': Log)
    requires forall i :: 0 <= i < |u| ==> (HasEid(d, u[i].eid) <==> HasEid(d', u[i].eid))
    ensures Minus(u, d) == Minus(u, d')
  {
    hide HasEid;
    if u != [] {
      MinusSame(u[..|u| - 1], d, d');
    }
  }

  lemma {:induction false} MinusAll(u: Log, d: Log)
    requires forall i :: 0 <= i < |u| ==> HasEid(d, u[i].eid)
    ensures Minus(u, d) == []
  {
    hide HasEid;
    if u != [] {
      MinusAll(u[..|u| - 1], d);
    }
  }

  lemma {:induction false} MinusNone(u: Log, d: Log)
    requires forall i :: 0 <= i < |u| ==> !HasEid(d, u[i].eid)
    ensures Minus(u, d) == u
  {
    hide HasEid;
    if u != [] {
      MinusNone(u[..|u| - 1], d);
      assert u == u[..|u| - 1] + [u[|u| - 1]];
    }
  }

  lemma {:induction false} MinusTwice(u: Log, d: Log, e: Log, both: Log)
    requires forall eid :: HasEid(both, eid) <==> HasEid(d, eid) || HasEid(e, eid)
    ensures Minus(u, both) == Minus(Minus(u, d), e)
  {
    hide HasEid;
    if u != [] {
      MinusTwice(u[..|u| - 1], d, e, both);
      MinusSnoc(Minus(u[..|u| - 1], d), u[|u| - 1], e);
    }
  }

  /** A new payload for an id of u moves nothing. */
  lemma {:induction false} MinusUpdate(u: Log, d: Log, i: nat, e: CommentEvent)
    requires i < |u| && u[i].eid == e.eid && DistinctEids(u) && !e.eid.NoEid?
    ensures Minus(u[i := e], d) == if HasEid(d, e.eid) then Minus(u, d) else Upsert(Minus(u, d), e)
    decreases |u|
  {
    hide HasEid, Upsert, DistinctEids, Minus;
    var front, x := u[..|u| - 1], u[|u| - 1];
    assert u == front + [x];
    FrontDistinct(u);
    if i == |u| - 1 {
      assert u[i := e] == front + [e];
      UpdateLast(u, d, e);
    } else {
      assert u[i := e] == front[i := e] + [x];
      MinusUpdate(front, d, i, e);
      InBoth(front, i, e.eid);
      UpdateBefore(front, x, d, front[i := e], e);
    }
  }

  lemma FrontDistinct(u: Log)
    requires DistinctEids(u) && u != []
    ensures DistinctEids(u[..|u| - 1])
  {
  }

  lemma UpdateLast(u: Log, d: Log, e: CommentEvent)
    requires u != [] && u[|u| - 1].eid == e.eid && DistinctEids(u) && !e.eid.NoEid?
    ensures Minus(u[..|u| - 1] + [e], d) == if HasEid(d, e.eid) then Minus(u, d) else Upsert(Minus(u, d), e)
  {
    hide HasEid, Upsert, DistinctEids, Minus;
    var front, x := u[..|u| - 1], u[|u| - 1];
    assert u == front + [x];
    MinusSnoc(front, x, d);
    MinusSnoc(front, e, d);
    if !HasEid(d, e.eid) {
      NotBefore(u, |u| - 1);
      MinusHas(front, d);
      UpsertLast(Minus(front, d), x, e);
    }
  }

  lemma UpdateBefore(front: Log, x: CommentEvent, d: Log, front': Log, e: CommentEvent)
    requires HasEid(front, e.eid) && !e.eid.NoEid?
    requires Minus(front', d) == if HasEid(d, e.eid) then Minus(front, d) else Upsert(Minus(front, d), e)
    ensures Minus(front' + [x], d) ==
      if HasEid(d, e.eid) then Minus(front + [x], d) else Upsert(Minus(front + [x], d), e)
  {
    hide HasEid, Upsert, Minus;
    MinusSnoc(front, x, d);
    MinusSnoc(front', x, d);
    if !HasEid(d, e.eid) {
      MinusHas(front, d);
      UpsertBefore(Minus(front, d), [x], e);
    }
  }

  lemma FreshId(s: Log, eid: Eid)
    ensures HasEid(s, eid) <==> exists x :: x in s && x.eid == eid
  {
    if HasEid(s, eid) {
      var i :| 0 <= i < |s| && s[i].eid == eid;
      assert s[i] in s;
    }
  }

  lemma InBoth(s: Log, i: nat, eid: Eid)
    requires i < |s| && s[i].eid == eid
    ensures HasEid(s, eid)
  {
  }

  lemma NotBefore(u: Log, i: nat)
    requires i == |u| - 1 && DistinctEids(u) && !u[i].eid.NoEid?
    ensures !HasEid(u[..i], u[i].eid)
  {
  }

  lemma UpsertLast(s: Log, x: CommentEvent, e: CommentEvent)
    requires !HasEid(s, e.eid) && x.eid == e.eid && !e.eid.NoEid?
    ensures Upsert(s + [x], e) == s + [e]
  {
    var t := s + [x];
    assert t[|s|] == x;
    IndexBefore(s, [x], e.eid);
    HasIndex(s, e.eid);
  }

  lemma UpsertBefore(s: Log, t: Log, e: CommentEvent)
    requires HasEid(s, e.eid) && !e.eid.NoEid?
    ensures Upsert(s + t, e) == Upsert(s, e) + t
  {
    IndexBefore(s, t, e.eid);
    HasIndex(s, e.eid);
  }

  lemma {:induction false} IndexBefore(s: Log, t: Log, eid: Eid)
    ensures IndexOfEid(s + t, eid) == if IndexOfEid(s, eid) < |s| then IndexOfEid(s, eid) else |s| + IndexOfEid(t, eid)
  {
    if s == [] {
      assert s + t == t;
    } else {
      assert (s + t)[1..] == s[1..] + t;
      IndexBefore(s[1..], t, eid);
    }
  }

  lemma UpsertAfter(s: Log, t: Log, e: CommentEvent)
    requires !HasEid(s, e.eid) && !e.eid.NoEid?
    ensures Upsert(s + t, e) == s + Upsert(t, e)
  {
    IndexBefore(s, t, e.eid);
    HasIndex(s, e.eid);
  }

  lemma MinusUpsert(u: Log, d: Log, e: CommentEvent)
    requires DistinctEids(u) && !e.eid.NoEid?
    ensures Minus(Upsert(u, e), d) == if HasEid(d, e.eid) then Minus(u, d) else Upsert(Minus(u, d), e)
  {
    hide HasEid;
    var i := IndexOfEid(u, e.eid);
    if i < |u| {
      MinusUpdate(u, d, i, e);
    } else {
      MinusSnoc(u, e, d);
      MinusHas(u, d);
      HasIndex(u, e.eid);
      HasIndex(Minus(u, d), e.eid);
    }
  }

  lemma ReplacedUpsert(d: Log, u: Log, e: CommentEvent)
    requires DistinctEids(d) && !e.eid.NoEid?
    ensures Replaced(d, Upsert(u, e)) == if HasEid(d, e.eid) then Upsert(Replaced(d, u), e) else Replaced(d, u)
  {
    hide HasEid, Upsert;
    var r, r' := Replaced(d, u), Replaced(d, Upsert(u, e));
    forall i | 0 <= i < |d| ensures r'[i] == if d[i].eid == e.eid then e else r[i] {
      LatestUpsert(d[i], u, e);
    }
    if HasEid(d, e.eid) {
      HasIndex(d, e.eid);
      SameIds(d, r, e.eid);
      UpsertOne(d, r, r', e);
    } else {
      forall i | 0 <= i < |d| ensures d[i].eid != e.eid {
        if d[i].eid == e.eid { InBoth(d, i, e.eid); }
      }
    }
  }

  lemma LatestUpsert(x: CommentEvent, u: Log, e: CommentEvent)
    requires !e.eid.NoEid?
    ensures Latest(x, Upsert(u, e)) == if x.eid == e.eid then e else Latest(x, u)
  {
    hide HasEid;
    UpsertEids(u, e, x.eid);
    HasIndex(u, x.eid);
    HasIndex(Upsert(u, e), x.eid);
    UpsertIndex(u, e, x.eid);
  }

  /** Where an id stands after an upsert. */
  lemma UpsertIndex(u: Log, e: CommentEvent, eid: Eid)
    requires !e.eid.NoEid?
    ensures eid == e.eid ==> var k := IndexOfEid(Upsert(u, e), eid); k < |Upsert(u, e)| && Upsert(u, e)[k] == e
    ensures eid != e.eid && IndexOfEid(u, eid) < |u| ==>
      var k := IndexOfEid(Upsert(u, e), eid); k < |Upsert(u, e)| && Upsert(u, e)[k] == u[IndexOfEid(u, eid)]
  {
    var w, i := Upsert(u, e), IndexOfEid(u, e.eid);
    assert w[i] == e && forall j :: 0 <= j < i ==> w[j] == u[j];
    var k, j := IndexOfEid(w, eid), IndexOfEid(u, eid);
    if eid == e.eid {
      assert k == i;
    } else if j < |u| {
      assert j != i && w[j] == u[j];
      assert k == j;
    }
  }

  lemma SameIds(d: Log, r: Log, eid: Eid)
    requires |r| == |d| && forall i :: 0 <= i < |d| ==> r[i].eid == d[i].eid
    ensures HasEid(r, eid) <==> HasEid(d, eid)
    ensures IndexOfEid(r, eid) == IndexOfEid(d, eid)
  {
    var i, j := IndexOfEid(r, eid), IndexOfEid(d, eid);
    assert i < |d| ==> r[i].eid == d[i].eid;
    assert j < |d| ==> r[j].eid == d[j].eid;
  }

  lemma UpsertOne(d: Log, r: Log, r': Log, e: CommentEvent)
    requires |r| == |d| == |r'| && DistinctEids(d) && !e.eid.NoEid?
    requires IndexOfEid(d, e.eid) == IndexOfEid(r, e.eid) < |d|
    requires forall i :: 0 <= i < |d| ==> r'[i] == if d[i].eid == e.eid then e else r[i]
    ensures r' == Upsert(r, e)
  {
    var k := IndexOfEid(d, e.eid);
    forall i | 0 <= i < |d| ensures r'[i] == r[k := e][i] {
      assert i != k ==> d[i].eid != d[k].eid;
    }
  }

  /** Collapsing a log with a part appended: the ids it had keep their places and get the part's payloads, and
      the part's new ids follow. */
  lemma {:induction false} DedupAppended(s: Log, t: Log)
    requires Stamped(t)
    ensures Dedup(s + t) == Replaced(Dedup(s), Dedup(t)) + Minus(Dedup(t), Dedup(s))
  {
    hide HasEid, Dedup, Replaced, Minus, Upsert;
    DedupNothing();
    if t == [] {
      assert s + t == s;
      ReplacedByNothing(Dedup(s));
    } else {
      var front, e := t[..|t| - 1], t[|t| - 1];
      assert t == front + [e] && s + t == (s + front) + [e];
      DedupAppended(s, front);
      DedupSnoc(front, e);
      DedupSnoc(s + front, e);
      var d, u := Dedup(s), Dedup(front);
      DedupDistinct(s);
      DedupDistinct(front);
      ReplacedUpsert(d, u, e);
      MinusUpsert(u, d, e);
      SameIds(d, Replaced(d, u), e.eid);
      if HasEid(d, e.eid) {
        UpsertBefore(Replaced(d, u), Minus(u, d), e);
      } else {
        UpsertAfter(Replaced(d, u), Minus(u, d), e);
      }
    }
  }

  lemma DedupNothing()
    ensures Dedup([]) == []
  {
  }

  lemma ReplacedByNothing(d: Log)
    ensures Replaced(d, []) + Minus([], d) == d
  {
    NoEids();
  }

  // ---------------------------------------------------------------- both orders

  /** The writers agree: what counts under an id that both wrote is the same event. */
  predicate Agree(x: Log, y: Log) {
    forall i, j :: 0 <= i < |x| && 0 <= j < |y| && x[i].eid == y[j].eid ==> x[i] == y[j]
  }

  /** What a writer adds under ids the log did not have, collapsed. */
  function Added(base: Log, a: Log): Log {
    Minus(Dedup(a), base)
  }

  lemma LatestOfAgreed(x: CommentEvent, a: Log, b: Log)
    requires Agree(a, b)
    ensures Latest(Latest(x, a), b) == Latest(Latest(x, b), a)
  {
    HasIndex(a, x.eid);
    HasIndex(b, x.eid);
  }

  lemma ReplacedBoth(d: Log, a: Log, b: Log)
    requires Agree(a, b)
    ensures Replaced(Replaced(d, a), b) == Replaced(Replaced(d, b), a)
  {
    hide Latest, Agree;
    forall i | 0 <= i < |d| ensures Latest(Latest(d[i], a), b) == Latest(Latest(d[i], b), a) {
      LatestOfAgreed(d[i], a, b);
    }
  }

  lemma ReplacedByAgreed(x: Log, a: Log, b: Log)
    requires Agree(a, b) && forall i :: 0 <= i < |x| ==> x[i] in a
    ensures Replaced(x, b) == x
  {
    hide HasEid;
    forall i | 0 <= i < |x| ensures Latest(x[i], b) == x[i] {
      HasIndex(b, x[i].eid);
      var k :| 0 <= k < |a| && a[k] == x[i];
    }
  }

  lemma ReplacedAppend(x: Log, y: Log, u: Log)
    ensures Replaced(x + y, u) == Replaced(x, u) + Replaced(y, u)
  {
  }

  lemma HasEidAppend(s: Log, t: Log, eid: Eid)
    ensures HasEid(s + t, eid) <==> HasEid(s, eid) || HasEid(t, eid)
  {
    if HasEid(s, eid) {
      var i :| 0 <= i < |s| && s[i].eid == eid;
      assert (s + t)[i].eid == eid;
    }
    if HasEid(t, eid) {
      var i :| 0 <= i < |t| && t[i].eid == eid;
      assert (s + t)[|s| + i].eid == eid;
    }
  }

  lemma MembersOf(s: Log)
    ensures forall i :: 0 <= i < |s| ==> s[i] in s
  {
  }

  /** One order, when the writers agree. */
  lemma MergedIs(base: Log, a: Log, b: Log)
    requires Stamped(a) && Stamped(b) && Agree(Dedup(a), Dedup(b))
    ensures Dedup(base + a + b)
      == Replaced(Replaced(Dedup(base), Dedup(a)), Dedup(b)) + (Added(base, a) + Minus(Added(base, b), Added(base, a)))
  {
    hide HasEid, Dedup, Replaced, Minus, Agree;
    var d, u, w := Dedup(base), Dedup(a), Dedup(b);
    var x := Added(base, a);
    DedupAppended(base, a);
    DedupAppended(base + a, b);
    AddedIs(base, a);
    MinusHas(u, base);
    MembersOf(x);
    ReplacedAppend(Replaced(d, u), x, w);
    ReplacedByAgreed(x, u, w);
    forall eid ensures HasEid(Dedup(base + a), eid) <==> HasEid(base, eid) || HasEid(x, eid) {
      SameIds(d, Replaced(d, u), eid);
      HasEidAppend(Replaced(d, u), x, eid);
      DedupEids(base, eid);
    }
    MinusTwice(w, base, x, Dedup(base + a));
  }

  lemma AddedIs(base: Log, a: Log)
    ensures Added(base, a) == Minus(Dedup(a), Dedup(base))
  {
    hide HasEid, Dedup, Minus;
    var u := Dedup(a);
    forall i | 0 <= i < |u| ensures HasEid(base, u[i].eid) <==> HasEid(Dedup(base), u[i].eid) {
      DedupEids(base, u[i].eid);
    }
    MinusSame(u, base, Dedup(base));
  }

  lemma {:induction false} MinusAtOnly(y: Log, x: Log, n: int)
    requires Agree(x, y)
    ensures AtOnly(Minus(y, x), n) == Minus(AtOnly(y, n), AtOnly(x, n))
  {
    hide HasEid;
    if y != [] {
      var front, e := y[..|y| - 1], y[|y| - 1];
      MinusAtOnly(front, x, n);
      AtOnlySnoc(Minus(front, x), e, n);
      if e.atVersion == n {
        MinusSnoc(AtOnly(front, n), e, AtOnly(x, n));
        SharedHere(x, y, e, n);
      } else {
        assert AtOnly(front, n) + [] == AtOnly(front, n);
      }
    }
  }

  lemma AtOnlySnoc(s: Log, e: CommentEvent, n: int)
    ensures AtOnly(s + [e], n) == AtOnly(s, n) + if e.atVersion == n then [e] else []
  {
    assert (s + [e])[..|s|] == s;
  }

  lemma {:induction false} AtOnlyHas(s: Log, n: int)
    ensures forall e :: e in AtOnly(s, n) <==> e in s && e.atVersion == n
  {
    if s != [] {
      AtOnlyHas(s[..|s| - 1], n);
      assert forall e :: e in s <==> e in s[..|s| - 1] || e == s[|s| - 1];
    }
  }

  /** An id of the other writer's is one at the same version. */
  lemma SharedHere(x: Log, y: Log, e: CommentEvent, n: int)
    requires Agree(x, y) && e in y && e.atVersion == n
    ensures HasEid(AtOnly(x, n), e.eid) <==> HasEid(x, e.eid)
  {
    AtOnlyHas(x, n);
    FreshId(x, e.eid);
    FreshId(AtOnly(x, n), e.eid);
  }

  /** One is the beginning of the other. */
  predicate Aligned(p: Log, q: Log) {
    p <= q || q <= p
  }

  lemma PrefixMerges(p: Log, q: Log)
    requires p <= q && DistinctEids(q) && Stamped(q)
    ensures p + Minus(q, p) == q + Minus(p, q) == q
  {
    hide Minus;
    var rest := q[|p|..];
    assert q == p + rest;
    MinusAppend(p, rest, p);
    MinusAll(p, p);
    MinusAll(p, q);
    forall i | 0 <= i < |rest| ensures !HasEid(p, rest[i].eid) {
      assert rest[i] == q[|p| + i] && forall k :: 0 <= k < |p| ==> p[k] == q[k];
    }
    MinusNone(rest, p);
  }

  /** At one version: the two orders read alike exactly when one part begins with the other. */
  lemma AlignedExactly(p: Log, q: Log)
    requires DistinctEids(p) && DistinctEids(q) && Stamped(p) && Stamped(q)
    ensures p + Minus(q, p) == q + Minus(p, q) <==> Aligned(p, q)
  {
    hide Minus, DistinctEids, Stamped;
    if p <= q {
      PrefixMerges(p, q);
    } else if q <= p {
      PrefixMerges(q, p);
    } else if |p| <= |q| {
      assert (p + Minus(q, p))[..|p|] == p && (q + Minus(p, q))[..|p|] == q[..|p|];
    } else {
      assert (p + Minus(q, p))[..|q|] == p[..|q|] && (q + Minus(p, q))[..|q|] == q;
    }
  }

  lemma CutFront(e: Log, x: Log, y: Log)
    ensures e + x == e + y <==> x == y
  {
    assert x == (e + x)[|e|..] && y == (e + y)[|e|..];
  }

  lemma {:induction false} MinusDistinct(u: Log, d: Log)
    requires DistinctEids(u) && Stamped(u)
    ensures DistinctEids(Minus(u, d)) && Stamped(Minus(u, d))
  {
    if u != [] {
      var front, x := u[..|u| - 1], u[|u| - 1];
      MinusDistinct(front, d);
      MinusHas(front, d);
      NotBefore(u, |u| - 1);
      MembersOf(front);
      AppendDistinct(Minus(front, d), x);
    }
  }

  lemma AppendDistinct(s: Log, x: CommentEvent)
    requires DistinctEids(s) && Stamped(s) && !HasEid(s, x.eid) && !x.eid.NoEid?
    ensures DistinctEids(s + [x]) && Stamped(s + [x])
  {
  }

  lemma {:induction false} AtOnlyDistinct(s: Log, n: int)
    requires DistinctEids(s) && Stamped(s)
    ensures DistinctEids(AtOnly(s, n)) && Stamped(AtOnly(s, n))
  {
    if s != [] {
      var front, x := s[..|s| - 1], s[|s| - 1];
      AtOnlyDistinct(front, n);
      AtOnlyHas(front, n);
      NotBefore(s, |s| - 1);
      FreshId(front, x.eid);
      FreshId(AtOnly(front, n), x.eid);
      AppendDistinct(AtOnly(front, n), x);
    }
  }

  lemma AddedGood(base: Log, a: Log)
    requires Stamped(a)
    ensures DistinctEids(Added(base, a)) && Stamped(Added(base, a))
  {
    hide Dedup, Minus;
    DedupDistinct(a);
    MinusDistinct(Dedup(a), base);
  }

  lemma AddedAgree(base: Log, a: Log, b: Log)
    requires Agree(Dedup(a), Dedup(b))
    ensures Agree(Added(base, a), Added(base, b))
  {
    hide Dedup, Minus, HasEid;
    MinusHas(Dedup(a), base);
    MinusHas(Dedup(b), base);
    MembersOf(Added(base, a));
    MembersOf(Added(base, b));
  }

  /** Version by version, once the writers agree. */
  lemma MergedAtVersion(base: Log, a: Log, b: Log, n: int)
    requires Stamped(a) && Stamped(b) && Agree(Dedup(a), Dedup(b))
    ensures AtOnly(Dedup(base + a + b), n) == AtOnly(Dedup(base + b + a), n)
       <==> Aligned(AtOnly(Added(base, a), n), AtOnly(Added(base, b), n))
  {
    hide Dedup, Added, Minus, Replaced, Agree, AtOnly, Stamped, DistinctEids, Aligned;
    var x, y, e := Added(base, a), Added(base, b), Replaced(Replaced(Dedup(base), Dedup(a)), Dedup(b));
    AgreeSymmetric(Dedup(a), Dedup(b));
    MergedIs(base, a, b);
    MergedIs(base, b, a);
    ReplacedBoth(Dedup(base), Dedup(a), Dedup(b));
    AddedAgree(base, a, b);
    AgreeSymmetric(x, y);
    MergedPart(e, x, y, n);
    MergedPart(e, y, x, n);
    AddedGood(base, a);
    AddedGood(base, b);
    AtOnlyDistinct(x, n);
    AtOnlyDistinct(y, n);
    AlignedExactly(AtOnly(x, n), AtOnly(y, n));
    CutFront(AtOnly(e, n), AtOnly(x, n) + Minus(AtOnly(y, n), AtOnly(x, n)),
        AtOnly(y, n) + Minus(AtOnly(x, n), AtOnly(y, n)));
  }

  lemma AgreeSymmetric(x: Log, y: Log)
    requires Agree(x, y)
    ensures Agree(y, x)
  {
  }

  lemma MergedPart(e: Log, x: Log, y: Log, n: int)
    requires Agree(x, y)
    ensures AtOnly(e + (x + Minus(y, x)), n) == AtOnly(e, n) + (AtOnly(x, n) + Minus(AtOnly(y, n), AtOnly(x, n)))
  {
    hide Minus, Agree, AtOnly;
    AtOnlyAppend(e, x + Minus(y, x), n);
    AtOnlyAppend(x, Minus(y, x), n);
    MinusAtOnly(y, x, n);
  }

  /** What was written last is what the collapsed log holds. */
  lemma LastWriterStays(s: Log, t: Log, e: CommentEvent)
    requires Stamped(t) && e in Dedup(t)
    ensures e in Dedup(s + t)
  {
    hide Dedup, Minus, HasEid;
    DedupAppended(s, t);
    DedupDistinct(t);
    var d, u := Dedup(s), Dedup(t);
    if HasEid(d, e.eid) {
      HasIndex(d, e.eid);
      var i := IndexOfEid(d, e.eid);
      FreshId(u, e.eid);
      HasIndex(u, e.eid);
      OneEntry(u, u[IndexOfEid(u, e.eid)], e);
      assert Replaced(d, u)[i] == e;
      assert (Replaced(d, u) + Minus(u, d))[i] == e;
    } else {
      MinusHas(u, d);
    }
  }

  lemma OneEntry(u: Log, x: CommentEvent, y: CommentEvent)
    requires DistinctEids(u) && Stamped(u) && x in u && y in u && x.eid == y.eid
    ensures x == y
  {
    var i :| 0 <= i < |u| && u[i] == x;
    var j :| 0 <= j < |u| && u[j] == y;
    assert !u[i].eid.NoEid?;
  }

  /** If both orders hold the same at every version the writers agree. */
  lemma SameMeansAgree(base: Log, a: Log, b: Log)
    requires Stamped(base) && Stamped(a) && Stamped(b)
    requires SameVersions(Dedup(base + a + b), Dedup(base + b + a))
    ensures Agree(Dedup(a), Dedup(b))
  {
    hide Dedup, AtOnly, Stamped, DistinctEids;
    var u, w, ab, ba := Dedup(a), Dedup(b), Dedup(base + a + b), Dedup(base + b + a);
    AllStamped(base + b, a);
    AllStamped(base, b);
    AllStamped(base + b + a, []);
    DedupDistinct(base + b + a);
    forall i, j | 0 <= i < |u| && 0 <= j < |w| && u[i].eid == w[j].eid ensures u[i] == w[j] {
      LastWriterStays(base + b, a, u[i]);
      LastWriterStays(base + a, b, w[j]);
      AtOnlyHas(ab, w[j].atVersion);
      AtOnlyHas(ba, w[j].atVersion);
      assert AtOnly(ab, w[j].atVersion) == AtOnly(ba, w[j].atVersion);
      OneEntry(ba, u[i], w[j]);
    }
  }

  lemma AllStamped(s: Log, t: Log)
    ensures Stamped(s) && Stamped(t) ==> Stamped(s + t)
  {
  }

  ghost predicate SameVersions(s: Log, t: Log) {
    forall n :: AtOnly(s, n) == AtOnly(t, n)
  }

  /** At every version one part begins with the other. */
  ghost predicate AlignedThroughout(x: Log, y: Log) {
    forall n :: Aligned(AtOnly(x, n), AtOnly(y, n))
  }

  lemma SameOrderSameVersions(s: Log, t: Log)
    ensures Ordered(s) == Ordered(t) <==> SameVersions(Dedup(s), Dedup(t))
  {
    hide Dedup, AtOnly, StableSort;
    if Ordered(s) == Ordered(t) {
      forall n ensures AtOnly(Dedup(s), n) == AtOnly(Dedup(t), n) {
        StableSortKeepsEachVersion(Dedup(s), n);
        StableSortKeepsEachVersion(Dedup(t), n);
      }
    }
    if SameVersions(Dedup(s), Dedup(t)) {
      CanonicalOrder(s, t);
    }
  }

  lemma SameVersionsAligned(base: Log, a: Log, b: Log)
    requires Stamped(a) && Stamped(b) && Agree(Dedup(a), Dedup(b))
    ensures SameVersions(Dedup(base + a + b), Dedup(base + b + a)) <==>
      AlignedThroughout(Added(base, a), Added(base, b))
  {
    hide Dedup, Added, AtOnly, Aligned, Agree, Stamped;
    var ab, ba, x, y := Dedup(base + a + b), Dedup(base + b + a), Added(base, a), Added(base, b);
    forall n ensures AtOnly(ab, n) == AtOnly(ba, n) <==> Aligned(AtOnly(x, n), AtOnly(y, n)) {
      MergedAtVersion(base, a, b, n);
    }
  }

  /** When the order of merging does not matter, for any log and any two parts with ids throughout: if and only
      if what counts under every id both wrote is the same event, and at every version what one writer added
      under new ids begins with what the other added there. */
  lemma MergeOrderExact(base: Log, a: Log, b: Log)
    requires Stamped(base) && Stamped(a) && Stamped(b)
    ensures Ordered(base + a + b) == Ordered(base + b + a)
       <==> Agree(Dedup(a), Dedup(b)) && AlignedThroughout(Added(base, a), Added(base, b))
  {
    hide Ordered, Dedup, Added, Agree, Stamped, AlignedThroughout, SameVersions;
    SameOrderSameVersions(base + a + b, base + b + a);
    if SameVersions(Dedup(base + a + b), Dedup(base + b + a)) {
      SameMeansAgree(base, a, b);
    }
    if Agree(Dedup(a), Dedup(b)) {
      SameVersionsAligned(base, a, b);
    }
  }

  /** Then every snapshot at every version is the same too. */
  lemma MergeOrderIrrelevant(c: Comment, base: Log, a: Log, b: Log, v: int)
    requires Stamped(base) && Stamped(a) && Stamped(b)
    requires Agree(Dedup(a), Dedup(b)) && AlignedThroughout(Added(base, a), Added(base, b))
    ensures SnapshotOf(c, base + a + b, v) == SnapshotOf(c, base + b + a, v)
  {
    hide Ordered, Dedup, Added, Agree, AlignedThroughout, Stamped, FoldEvents, Finalize, VisibleAt;
    MergeOrderExact(base, a, b);
    assert base + a + b == [] <==> base + b + a == [];
  }

  lemma DistinctParts(base: Log, a: Log, b: Log)
    requires Stamped(base + a + b) && DistinctEids(base + a + b)
    ensures Stamped(base) && Stamped(a) && Stamped(b) && DistinctEids(a) && DistinctEids(b)
    ensures forall i :: 0 <= i < |a| ==> !HasEid(base, a[i].eid) && !HasEid(b, a[i].eid)
    ensures forall j :: 0 <= j < |b| ==> !HasEid(base, b[j].eid) && !HasEid(a, b[j].eid)
  {
    var s := base + a + b;
    assert forall i :: 0 <= i < |base| ==> s[i] == base[i];
    assert forall i :: 0 <= i < |a| ==> s[|base| + i] == a[i];
    assert forall i :: 0 <= i < |b| ==> s[|base| + |a| + i] == b[i];
  }

  lemma AlignedStrangers(a: Log, b: Log, n: int)
    requires forall i :: 0 <= i < |a| ==> !HasEid(b, a[i].eid)
    ensures Aligned(AtOnly(a, n), AtOnly(b, n)) <==> AtOnly(a, n) == [] || AtOnly(b, n) == []
  {
    hide HasEid;
    AtOnlyHas(a, n);
    AtOnlyHas(b, n);
    var p, q := AtOnly(a, n), AtOnly(b, n);
    if p != [] && q != [] {
      assert p[0] in a && q[0] in b;
      FreshId(b, q[0].eid);
      assert p[0] != q[0];
    }
  }

  ghost predicate NoSharedVersion(a: Log, b: Log) {
    forall n :: AtOnly(a, n) == [] || AtOnly(b, n) == []
  }

  /** Where no id repeats: the order does not matter if and only if no version got events from both writers. */
  lemma MergeOrderDistinct(base: Log, a: Log, b: Log)
    requires Stamped(base + a + b) && DistinctEids(base + a + b)
    ensures Ordered(base + a + b) == Ordered(base + b + a) <==> NoSharedVersion(a, b)
  {
    hide Ordered, Dedup, Stamped, HasEid, DistinctEids, Minus, AlignedThroughout, NoSharedVersion;
    DistinctParts(base, a, b);
    DedupOfDistinct(a);
    DedupOfDistinct(b);
    MinusNone(a, base);
    MinusNone(b, base);
    Strangers(a, b);
    MergeOrderExact(base, a, b);
    AlignedStrangersThroughout(a, b);
  }

  lemma AlignedStrangersThroughout(a: Log, b: Log)
    requires forall i :: 0 <= i < |a| ==> !HasEid(b, a[i].eid)
    ensures AlignedThroughout(a, b) <==> NoSharedVersion(a, b)
  {
    hide AtOnly, Aligned, HasEid;
    forall n ensures Aligned(AtOnly(a, n), AtOnly(b, n)) <==> AtOnly(a, n) == [] || AtOnly(b, n) == [] {
      AlignedStrangers(a, b, n);
    }
  }

  lemma Strangers(a: Log, b: Log)
    requires forall i :: 0 <= i < |a| ==> !HasEid(b, a[i].eid)
    ensures Agree(a, b)
  {
    forall i, j | 0 <= i < |a| && 0 <= j < |b| ensures a[i].eid != b[j].eid {
      InBoth(b, j, b[j].eid);
    }
  }
}
