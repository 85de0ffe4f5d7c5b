/** The fold as the program runs it: an object changed event by event, and the loops around it. */
module FoldMachine {
  import opened CommentTypes
  import opened EventLog
  import CommentFold
  import opened LegacyMigration

  type FoldView = CommentFold.FoldView

  /** indexOf: the first position of user, or -1. */
  method IndexOf(users: seq<string>, user: string) returns (i: int)
    ensures i == if CommentFold.IndexOf(users, user) < |users| then CommentFold.IndexOf(users, user) else -1
    ensures 0 <= i <==> user in users
  {
    CommentFold.IndexOfFirst(users, user);
    i := 0;
    while i < |users|
      invariant 0 <= i <= |users|
      invariant user !in users[..i]
    {
      if users[i] == user {
        FirstHit(users, user, i);
        return;
      }
      i := i + 1;
    }
    assert users[..i] == users;
    i := -1;
  }

  lemma {:induction false} FirstHit(users: seq<string>, user: string, i: nat)
    requires i < |users| && users[i] == user && user !in users[..i]
    ensures CommentFold.IndexOf(users, user) == i
  {
    if i > 0 {
      assert users[0] == users[..i][0];
      assert users[1..][..i - 1] == users[..i][1..];
      FirstHit(users[1..], user, i - 1);
    }
  }

  /** applyReaction: put a user into, or take it out of, one emoji's list. */
  method ApplyReaction(reactions: Reactions, emoji: string, user: string, add: bool) returns (r: Reactions)
    ensures r == CommentFold.Toggle(reactions, emoji, user, add)
  {
    hide CommentFold.IndexOf;
    r := reactions;
    var users := if emoji in r then r[emoji] else [];
    var idx := IndexOf(users, user);
    if add {
      if idx < 0 {
        users := users + [user];
      }
      r := r[emoji := users];
    } else {
      if idx >= 0 {
        users := users[..idx] + users[idx + 1..];
      }
      if |users| > 0 {
        r := r[emoji := users];
      } else {
        r := r - {emoji};
      }
    }
  }

  class FoldState {
    var snap: CommentSnapshot
    var replyOrder: seq<string>
    var replyById: map<string, ReplySnapshot>
    var verdict: Option<string>

    function View(): FoldView
      reads this
    {
      CommentFold.FoldView(snap, replyOrder, replyById, verdict)
    }

    constructor (c: Comment)
      ensures View() == CommentFold.EmptyView(c)
    {
      snap := CommentFold.EmptySnapshot(c);
      replyOrder := [];
      replyById := map[];
      verdict := None;
    }

    method ApplyContentEvent(e: CommentEvent) returns (handled: bool)
      modifies this`snap
      ensures handled <==> e.kind.Created? || e.kind.TextEdited? || e.kind.AnchorChanged?
      ensures View() == if handled then CommentFold.Step(old(View()), e) else old(View())
    {
      handled := true;
      match e.kind {
        case Created =>
          snap := snap.(anchor := e.anchor);
          snap := snap.(text := e.text);
        case TextEdited =>
          snap := snap.(text := e.text);
        case AnchorChanged =>
          snap := snap.(anchor := e.anchor);
          if e.resetStatus.Some? && e.resetStatus.value {
            snap := snap.(status := Open, appliedIn := None);
          }
        case _ =>
          handled := false;
      }
    }

    method ApplyStatusEvent(e: CommentEvent) returns (handled: bool)
      modifies this`snap, this`verdict
      ensures handled <==> IsStateFlag(e.kind)
      ensures View() == if handled then CommentFold.Step(old(View()), e) else old(View())
    {
      handled := true;
      match e.kind {
        case MarkedApplied =>
          snap := snap.(status := Applied);
          if e.appliedIn.Some? {
            snap := snap.(appliedIn := e.appliedIn);
          } else {
            snap := snap.(appliedIn := Some(e.atVersion));
          }
          verdict := Some(if e.agentStatus != "" then e.agentStatus else "applied");
        case MarkedOpen =>
          snap := snap.(status := Open, appliedIn := None);
          verdict := if e.agentStatus != "" then Some(e.agentStatus) else None;
        case Deleted =>
          snap := snap.(deleted := true);
        case _ =>
          handled := false;
      }
    }

    method ApplyParentReaction(e: CommentEvent) returns (handled: bool)
      modifies this`snap
      ensures handled <==> IsReaction(e.kind) && e.emoji != "" && e.user != ""
      ensures View() == if handled then CommentFold.Step(old(View()), e) else old(View())
    {
      handled := false;
      if IsReaction(e.kind) && e.emoji != "" && e.user != "" {
        var r := ApplyReaction(snap.reactions, e.emoji, e.user, e.kind.ReactionAdded?);
        snap := snap.(reactions := r);
        handled := true;
      }
    }

    method AddReply(e: CommentEvent)
      requires e.kind.ReplyAdded?
      modifies this`replyOrder, this`replyById
      ensures View() == CommentFold.Step(old(View()), e)
    {
      if e.reply.None? || e.reply.value.id == "" {
        return;
      }
      var seed := e.reply.value;
      replyOrder := replyOrder + [seed.id];
      replyById := replyById[seed.id := CommentFold.NewReply(snap.id, seed, e.at)];
    }

    method ApplyReplyReaction(e: CommentEvent)
      requires e.kind.ReplyReactionAdded? || e.kind.ReplyReactionRemoved?
      modifies this`replyById
      ensures View() == CommentFold.Step(old(View()), e)
    {
      if e.replyId in replyById {
        var r := replyById[e.replyId];
        if e.emoji != "" && e.user != "" {
          var table := ApplyReaction(r.reactions, e.emoji, e.user, e.kind.ReplyReactionAdded?);
          replyById := replyById[e.replyId := r.(reactions := table)];
        } else {
          assert replyById == replyById[e.replyId := r];
        }
      }
    }

    method ApplyReplyEvent(e: CommentEvent)
      requires !(e.kind.Created? || e.kind.TextEdited? || e.kind.AnchorChanged? || IsStateFlag(e.kind))
      requires !(IsReaction(e.kind) && e.emoji != "" && e.user != "")
      modifies this`replyOrder, this`replyById
      ensures View() == CommentFold.Step(old(View()), e)
    {
      match e.kind {
        case ReplyAdded => AddReply(e);
        case ReplyTextEdited =>
          if e.replyId in replyById {
            replyById := replyById[e.replyId := replyById[e.replyId].(text := e.text)];
          }
        case ReplyDeleted =>
          if e.replyId in replyById {
            replyById := replyById[e.replyId := replyById[e.replyId].(deleted := true)];
          }
        case ReplyReactionAdded => ApplyReplyReaction(e);
        case ReplyReactionRemoved => ApplyReplyReaction(e);
        case _ =>
      }
    }

    /** applyCommentEvent: the first of the four handlers that takes the event. */
    method ApplyCommentEvent(e: CommentEvent)
      modifies this
      ensures View() == CommentFold.Step(old(View()), e)
    {
      var handled := ApplyContentEvent(e);
      if handled {
        return;
      }
      handled := ApplyStatusEvent(e);
      if handled {
        return;
      }
      handled := ApplyParentReaction(e);
      if handled {
        return;
      }
      ApplyReplyEvent(e);
    }

    /** finalize: add the verdict emoji, list the live replies in order. */
    method Finalize() returns (s: CommentSnapshot)
      modifies this`snap
      ensures s == CommentFold.Finalize(old(View())) && snap == s
    {
      if verdict.Some? {
        var emoji := CommentFold.VerdictEmoji(verdict.value);
        if emoji != "" {
          var r := ApplyReaction(snap.reactions, emoji, CommentFold.AGENT, true);
          snap := snap.(reactions := r);
        }
      }
      var replies: seq<ReplySnapshot> := [];
      var i := 0;
      while i < |replyOrder|
        invariant 0 <= i <= |replyOrder|
        invariant replies == CommentFold.LiveReplies(replyOrder[..i], replyById)
      {
        assert replyOrder[..i + 1][..i] == replyOrder[..i];
        var id := replyOrder[i];
        if id in replyById && !replyById[id].deleted {
          replies := replies + [replyById[id]];
        }
        i := i + 1;
      }
      assert replyOrder[..i] == replyOrder;
      snap := snap.(replies := replies);
      s := snap;
    }
  }

  // ---------------------------------------------------------------- loops over events

  /** The last event written under an id. */
  function LastUnder(s: Log, eid: Eid): Option<CommentEvent> {
    if s == [] then None
    else if s[|s| - 1].eid == eid then Some(s[|s| - 1])
    else LastUnder(s[..|s| - 1], eid)
  }

  lemma {:induction false} DedupHoldsLast(s: Log)
    ensures forall k :: 0 <= k < |Dedup(s)| && !Dedup(s)[k].eid.NoEid? ==>
      LastUnder(s, Dedup(s)[k].eid) == Some(Dedup(s)[k])
  {
    if s != [] {
      var t, e := s[..|s| - 1], s[|s| - 1];
      DedupHoldsLast(t);
      DedupDistinct(t);
      var d := Dedup(t);
      forall k | 0 <= k < |Dedup(s)| && !Dedup(s)[k].eid.NoEid?
        ensures LastUnder(s, Dedup(s)[k].eid) == Some(Dedup(s)[k])
      {
        if Dedup(s)[k].eid == e.eid {
          var i := IndexOfEid(d, e.eid);
          assert k == i;
        } else {
          assert Dedup(s)[k] == d[k];
        }
      }
    }
  }

  /** The entry an id stands for, once the last payload of every id is known. */
  function Latest(last: map<Eid, CommentEvent>, e: CommentEvent): CommentEvent {
    if e.eid in last then last[e.eid] else e
  }

  predicate LastOfAll(s: Log, last: map<Eid, CommentEvent>) {
    && NoEid !in last
    && (forall eid :: eid in last ==> LastUnder(s, eid) == Some(last[eid]))
    && (forall k :: 0 <= k < |s| && !s[k].eid.NoEid? ==> s[k].eid in last)
  }

  lemma LastUnderSnoc(s: Log, e: CommentEvent, eid: Eid)
    ensures LastUnder(s + [e], eid) == if e.eid == eid then Some(e) else LastUnder(s, eid)
  {
    assert (s + [e])[..|s|] == s;
  }

  /** out holds the collapsed prefix with every payload already the final one. */
  predicate Emitted(out: Log, d: Log, last: map<Eid, CommentEvent>) {
    |out| == |d| && forall k :: 0 <= k < |d| ==> out[k] == Latest(last, d[k])
  }

  lemma EmitStep(out: Log, d: Log, e: CommentEvent, last: map<Eid, CommentEvent>)
    requires Emitted(out, d, last) && NoEid !in last && (!e.eid.NoEid? ==> e.eid in last)
    ensures Emitted(if !e.eid.NoEid? && HasEid(d, e.eid) then out else out + [Latest(last, e)], Upsert(d, e), last)
  {
    var i := IndexOfEid(d, e.eid);
    if HasEid(d, e.eid) {
      var k :| 0 <= k < |d| && d[k].eid == e.eid;
      assert i <= k;
    }
  }

  lemma LastOfAllMore(s: Log, e: CommentEvent, last: map<Eid, CommentEvent>)
    requires LastOfAll(s, last)
    ensures LastOfAll(s + [e], if e.eid.NoEid? then last else last[e.eid := e])
  {
    hide LastUnder;
    forall eid ensures LastUnder(s + [e], eid) == if e.eid == eid then Some(e) else LastUnder(s, eid) {
      LastUnderSnoc(s, e, eid);
    }
  }

  /** The first pass of DedupEvents: the last payload of every id. */
  method LastPayloads(events: Log) returns (lastByEid: map<Eid, CommentEvent>)
    ensures LastOfAll(events, lastByEid)
  {
    lastByEid := map[];
    var i := 0;
    while i < |events|
      invariant 0 <= i <= |events|
      invariant LastOfAll(events[..i], lastByEid)
    {
      var e := events[i];
      assert events[..i + 1] == events[..i] + [e];
      LastOfAllMore(events[..i], e, lastByEid);
      if !e.eid.NoEid? {
        lastByEid := lastByEid[e.eid := e];
      }
      i := i + 1;
    }
    assert events[..i] == events;
  }

  /** The ids emitted so far. */
  ghost predicate EmittedIds(emitted: set<Eid>, s: Log) {
    forall eid :: eid in emitted <==> !eid.NoEid? && HasEid(s, eid)
  }

  lemma EmittedMore(emitted: set<Eid>, s: Log, e: CommentEvent)
    requires EmittedIds(emitted, s)
    ensures EmittedIds(if e.eid.NoEid? then emitted else emitted + {e.eid}, s + [e])
    ensures e.eid in emitted <==> !e.eid.NoEid? && HasEid(Dedup(s), e.eid)
  {
    hide HasEid, Dedup;
    DedupEids(s, e.eid);
    forall eid ensures HasEid(s + [e], eid) <==> HasEid(s, eid) || e.eid == eid {
      HasEidSnoc(s, e, eid);
    }
  }

  lemma LastHas(s: Log, last: map<Eid, CommentEvent>, k: nat)
    requires LastOfAll(s, last) && k < |s|
    ensures NoEid !in last && (s[k].eid.NoEid? || s[k].eid in last)
  {
    hide LastUnder;
  }

  /** DedupEvents: one pass to find the last payload of every id, one to emit each id at its first place. */
  method DedupEvents(events: Log) returns (out: Log)
    ensures out == Dedup(events)
  {
    hide Dedup, HasEid, Emitted, LastOfAll, EmittedIds;
    var lastByEid := LastPayloads(events);
    out := [];
    var emitted: set<Eid>, i := {}, 0;
    NothingEmitted(lastByEid);
    assert events[..0] == [];
    while i < |events|
      invariant 0 <= i <= |events|
      invariant Emitted(out, Dedup(events[..i]), lastByEid)
      invariant EmittedIds(emitted, events[..i])
    {
      var e := events[i];
      assert events[..i + 1] == events[..i] + [e];
      LastHas(events, lastByEid, i);
      DedupSnoc(events[..i], e);
      EmittedMore(emitted, events[..i], e);
      EmitStep(out, Dedup(events[..i]), e, lastByEid);
      i := i + 1;
      if e.eid.NoEid? {
        out := out + [e];
        continue;
      }
      if e.eid in emitted {
        assert emitted + {e.eid} == emitted;
        continue;
      }
      emitted := emitted + {e.eid};
      out := out + [lastByEid[e.eid]];
    }
    assert events[..i] == events;
    AllEmitted(events, out, lastByEid);
  }

  lemma NothingEmitted(last: map<Eid, CommentEvent>)
    ensures Emitted([], Dedup([]), last) && EmittedIds({}, [])
  {
  }

  lemma AllEmitted(s: Log, out: Log, last: map<Eid, CommentEvent>)
    requires Emitted(out, Dedup(s), last) && LastOfAll(s, last)
    ensures out == Dedup(s)
  {
    DedupHoldsLast(s);
    var d := Dedup(s);
    forall k | 0 <= k < |d| ensures out[k] == d[k] {
      assert out[k] == Latest(last, d[k]);
    }
  }

  /** BackfillEIDs: fill in every missing id, drawing serial numbers for the one-shot ones. */
  method BackfillEids(events: Log, serial: nat) returns (r: Log, next: nat, changed: bool)
    ensures r == Backfill(events, serial) && next == NextSerial(events, serial)
    ensures changed <==> !Stamped(events)
  {
    r, next, changed := [], serial, false;
    var i := 0;
    while i < |events|
      invariant 0 <= i <= |events|
      invariant r == Backfill(events[..i], serial) && next == NextSerial(events[..i], serial)
      invariant changed <==> !Stamped(events[..i])
    {
      var e := events[i];
      assert events[..i + 1][..i] == events[..i];
      if e.eid.NoEid? {
        assert events[..i + 1][i].eid.NoEid?;
        if NeedsSerial(e) {
          r := r + [e.(eid := OneShotEid(next))];
          next := next + 1;
        } else {
          r := r + [e.(eid := EventEid(e, next))];
        }
        changed := true;
      } else {
        r := r + [e];
      }
      i := i + 1;
    }
    assert events[..i] == events;
  }

  /** replay: fold the visible events of the ordered log. */
  lemma NothingFolded(c: Comment, at: int)
    ensures CommentFold.FoldEvents(CommentFold.EmptyView(c), VisibleAt([], at)) == CommentFold.EmptyView(c)
  {
  }

  method Replay(c: Comment, events: Log, at: int) returns (st: FoldState)
    ensures fresh(st) && st.View() == CommentFold.Replay(c, events, at)
  {
    hide CommentFold.Step, CommentFold.FoldEvents, VisibleAt;
    NothingFolded(c, at);
    st := new FoldState(c);
    var d := DedupEvents(events);
    var ordered := StableSort(d);
    var i := 0;
    while i < |ordered|
      invariant 0 <= i <= |ordered| && fresh(st)
      invariant st.View() == CommentFold.FoldEvents(CommentFold.EmptyView(c), VisibleAt(ordered[..i], at))
    {
      var e := ordered[i];
      assert ordered[..i + 1] == ordered[..i] + [e];
      VisibleSnoc(ordered[..i], e, at);
      CommentFold.FoldSnoc(CommentFold.EmptyView(c), VisibleAt(ordered[..i], at), e);
      if IsFiniteVersion(e.atVersion) && e.atVersion <= at {
        st.ApplyCommentEvent(e);
      }
      i := i + 1;
    }
    assert ordered[..i] == ordered;
  }

  /** SnapshotAt, for a comment whose log is in place. */
  method SnapshotAt(c: Comment, events: Log, v: int) returns (s: Option<CommentSnapshot>)
    ensures s == CommentFold.SnapshotOf(c, events, v)
  {
    if |events| == 0 {
      return None;
    }
    var at := v;
    if !IsFiniteVersion(v) {
      at := VERSION_LATEST;
    }
    if c.createdIn > at {
      return None;
    }
    var st := Replay(c, events, at);
    var snap := st.Finalize();
    s := Some(snap);
  }
}
