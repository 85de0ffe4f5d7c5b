/** What each comment operation does to the snapshots readers get, said of the dispatcher alone. */
module OpLaws {
  import opened CommentTypes
  import opened EventLog
  import opened CommentFold
  import opened Selection
  import opened LegacyMigration
  import opened CommentOps
  import opened CommentRuns
  import opened ReactionLaws
  import opened ReconcileLaws
  import opened FoldLaws

  // ---------------------------------------------------------------- whom an operation names

  /** The first comment of the list with this id is the i-th. */
  predicate IsComment(list: seq<Comment>, id: string, i: nat) {
    i < |list| && list[i].id == id && forall j :: 0 <= j < i ==> list[j].id != id
  }

  predicate NoComment(list: seq<Comment>, id: string) {
    forall j :: 0 <= j < |list| ==> list[j].id != id
  }

  predicate HoldsReply(c: Comment, id: string) {
    c.events.Some? && exists k :: 0 <= k < |c.events.value| && AddsReply(c.events.value[k], id)
  }

  /** No comment has this id, and the i-th is the first whose log adds a reply with it. */
  predicate IsReplyHost(list: seq<Comment>, id: string, i: nat) {
    NoComment(list, id) && i < |list| && HoldsReply(list[i], id) && forall j :: 0 <= j < i ==> !HoldsReply(list[j], id)
  }

  predicate NoHostOf(list: seq<Comment>, id: string) {
    NoComment(list, id) && forall j :: 0 <= j < |list| ==> !HoldsReply(list[j], id)
  }

  lemma HostFound(list: seq<Comment>, id: string)
    ensures forall i: nat :: IsComment(list, id, i) ==> FindById(list, id) == i && FindHost(list, id) == CommentHost(i)
    ensures forall i: nat :: IsReplyHost(list, id, i) ==> FindHost(list, id) == ReplyHost(i)
    ensures NoComment(list, id) ==> FindById(list, id) == |list|
    ensures NoHostOf(list, id) ==> FindHost(list, id) == NoHost
    ensures FindHost(list, id).NoHost? ==> NoHostOf(list, id)
    ensures FindHost(list, id).CommentHost? ==> IsComment(list, id, FindHost(list, id).index)
    ensures FindHost(list, id).ReplyHost? ==> IsReplyHost(list, id, FindHost(list, id).index)
    ensures FindById(list, id) < |list| ==> IsComment(list, id, FindById(list, id))
  {
    forall c: Comment ensures HoldsReply(c, id) <==> HasReply(Events(c), id) {
    }
    var i := FindById(list, id);
    var j := FindByReply(list, id);
  }

  /** Only the i-th comment of the list may have changed, and it keeps who and when it is. */
  ghost predicate OnlyAt(m: seq<Comment>, r: seq<Comment>, i: nat) {
    i < |m| && |r| == |m| && (forall j :: 0 <= j < |m| && j != i ==> r[j] == m[j])
    && r[i].id == m[i].id && r[i].author == m[i].author && r[i].created == m[i].created
    && r[i].createdIn == m[i].createdIn
  }

  // ---------------------------------------------------------------- deleting a comment

  lemma DeletionUnpicked(s: Log, serial: nat, e: CommentEvent)
    requires GoodLog(s, serial) && e.kind.Deleted? && e.eid == StateEid(Deleted, e.atVersion)
    ensures Select(Dedup(s + [e]), AllButDeletions) == Select(Dedup(s), AllButDeletions)
  {
    var d := Dedup(s);
    DedupSnoc(s, e);
    DedupGood(s, serial);
    var i := IndexOfEid(d, e.eid);
    if i == |d| {
      SelectSnoc(d, e, AllButDeletions);
    } else {
      assert GoodEid(d[i], serial);
      SelectReplaced(d, i, e, AllButDeletions);
    }
  }

  lemma DeletedSnoc(s: Log, e: CommentEvent, v: int)
    requires e.kind.Deleted?
    ensures DeletedIn(s + [e], v) <==> DeletedIn(s, v) || Visible(e, v)
  {
    var t := s + [e];
    assert t[|s|] == e && forall k :: 0 <= k < |s| ==> t[k] == s[k];
    if DeletedIn(s, v) {
      var k :| 0 <= k < |s| && s[k].kind.Deleted? && Visible(s[k], v);
      assert t[k].kind.Deleted?;
    }
  }

  lemma SameButDeleted(a: FoldView, b: FoldView)
    requires Agree(AllButDeletions, a, b)
    ensures Finalize(a) == Finalize(b).(deleted := a.snap.deleted)
    ensures Finalize(a).deleted == a.snap.deleted
  {
    hide Toggle, LiveReplies;
  }

  lemma DeletionMarks(c: Comment, s: Log, serial: nat, e: CommentEvent, w: int)
    requires GoodLog(s, serial) && e.kind.Deleted? && e.eid == StateEid(Deleted, e.atVersion)
    requires SnapshotOf(c, s, w).Some?
    ensures var was := SnapshotOf(c, s, w).value;
      SnapshotOf(c, s + [e], w) == Some(if Visible(e, ReadAt(w)) then was.(deleted := true) else was)
  {
    hide Finalize, Agree, FoldEvents, VisibleAt, Select, Dedup;
    var at := ReadAt(w);
    var x, y := VisibleAt(Ordered(s + [e]), at), VisibleAt(Ordered(s), at);
    DeletionUnpicked(s, serial, e);
    SelectSeen(Dedup(s + [e]), at, AllButDeletions);
    SelectSeen(Dedup(s), at, AllButDeletions);
    FoldAgrees(AllButDeletions, EmptyView(c), x);
    FoldAgrees(AllButDeletions, EmptyView(c), y);
    AgreeBoth(FoldEvents(EmptyView(c), x), FoldEvents(EmptyView(c), y),
        FoldEvents(EmptyView(c), Select(y, AllButDeletions)));
    SameButDeleted(FoldEvents(EmptyView(c), x), FoldEvents(EmptyView(c), y));
    GoodDeletion(s, serial, e);
    DeletedExactly(c, s, serial, w);
    DeletedExactly(c, s + [e], serial, w);
    DeletedSnoc(s, e, at);
  }

  lemma AgreeBoth(a: FoldView, b: FoldView, z: FoldView)
    requires Agree(AllButDeletions, a, z) && Agree(AllButDeletions, b, z)
    ensures Agree(AllButDeletions, a, b)
  {
  }

  lemma GoodDeletion(s: Log, serial: nat, e: CommentEvent)
    requires GoodLog(s, serial) && e.kind.Deleted? && e.eid == StateEid(Deleted, e.atVersion)
    ensures GoodLog(s + [e], serial)
  {
  }

  lemma GoodAt(b: Book, clock: string, i: nat)
    requires GoodBook(b) && i < |Migrate(b, clock).list|
    ensures var m := Migrate(b, clock); GoodLog(Events(m.list[i]), m.serial)
  {
    EachRemembers(b, MigratePass(clock));
  }

  lemma SameIdentity(c: Comment, d: Comment, s: Log, w: int)
    requires c.id == d.id && c.author == d.author && c.created == d.created && c.createdIn == d.createdIn
    ensures SnapshotOf(c, s, w) == SnapshotOf(d, s, w)
  {
    hide Finalize, FoldEvents, VisibleAt, Ordered;
    assert EmptyView(c) == EmptyView(d);
  }

  /** Deleting a comment marks it deleted in every snapshot that sees the deletion, whatever was
      deleted before, and changes nothing else in any snapshot of any comment. */
  lemma DeleteCommentMarks(b: Book, op: CommentOp, at: string, clock: string, i: nat, w: int)
    requires GoodBook(b) && op.DeleteOp? && IsComment(Migrate(b, clock).list, op.id, i)
    ensures var m := Migrate(b, clock);
      var (r, res) := ApplyOp(b, op, at, clock);
      && res == OpResult(200, OkBody, false)
      && OnlyAt(m.list, r.list, i)
      && (Snapshot(m.list[i], w).Some? ==>
            var was := Snapshot(m.list[i], w).value;
            Snapshot(r.list[i], w) ==
            Some(if IsFiniteVersion(op.version) && (op.version <= w || !IsFiniteVersion(w)) then was.(deleted := true)
                 else was))
  {
    hide SnapshotOf, Each, GoodBook, IsComment;
    var m := Migrate(b, clock);
    HostFound(m.list, op.id);
    assert i < |m.list| by {
      assert IsComment(m.list, op.id, i);
    }
    GoodAt(b, clock, i);
    var e := Stamp(BlankEvent(Deleted, op.version, at).(user := op.actor), m.serial);
    if Snapshot(m.list[i], w).Some? {
      DeletionMarks(m.list[i], Events(m.list[i]), m.serial, e, w);
      SameIdentity(m.list[i], Append(m.list[i], e, m.serial).0, Events(m.list[i]) + [e], w);
    }
  }

  // ---------------------------------------------------------------- events under a new id

  /** Readers below the version of an event under a new id read as before; at its version they read one
      more step. */
  lemma AppendedReads(c: Comment, e: CommentEvent, serial: nat, w: int)
    requires GoodLog(Events(c), serial) && NeedsSerial(e) && Snapshot(c, w).Some?
    ensures var d := Append(c, e, serial).0;
      && (IsFiniteVersion(w) && IsFiniteVersion(e.atVersion) && w < e.atVersion ==> Snapshot(d, w) == Snapshot(c, w))
      && (IsFiniteVersion(w) && w == e.atVersion ==>
            Snapshot(d, w) == Some(Finalize(Step(Replay(c, Events(c), w), Stamp(e, serial)))))
  {
    hide GoodLog, Finalize, Step, FoldEvents, Ordered, VisibleAt, LateAt;
    var d := Append(c, e, serial).0;
    FreshSerial(Events(c), serial);
    SameIdentity(c, d, Events(d), w);
    if IsFiniteVersion(w) && IsFiniteVersion(e.atVersion) && w <= e.atVersion {
      AppendLaw(c, Events(c), Stamp(e, serial), w);
    }
  }

  function Without(replies: seq<ReplySnapshot>, id: string): seq<ReplySnapshot> {
    if replies == [] then []
    else if replies[|replies| - 1].id == id then Without(replies[..|replies| - 1], id)
    else Without(replies[..|replies| - 1], id) + [replies[|replies| - 1]]
  }

  lemma WithoutSnoc(replies: seq<ReplySnapshot>, r: ReplySnapshot, id: string)
    ensures Without(replies + [r], id) == if r.id == id then Without(replies, id) else Without(replies, id) + [r]
  {
    assert (replies + [r])[..|replies|] == replies;
  }

  lemma LiveSnoc(order: seq<string>, byId: map<string, ReplySnapshot>)
    requires order != []
    ensures var x, rest := order[|order| - 1], LiveReplies(order[..|order| - 1], byId);
      LiveReplies(order, byId) == if x in byId && !byId[x].deleted then rest + [byId[x]] else rest
  {
  }

  lemma {:induction false} LiveWithout(order: seq<string>, byId: map<string, ReplySnapshot>, id: string,
                                       r: ReplySnapshot)
    requires id in byId && r.deleted && forall x :: x in byId ==> byId[x].id == x
    ensures LiveReplies(order, byId[id := r]) == Without(LiveReplies(order, byId), id)
  {
    if order != [] {
      LiveWithout(order[..|order| - 1], byId, id, r);
      LiveSnoc(order, byId);
      LiveSnoc(order, byId[id := r]);
      var x := order[|order| - 1];
      if x in byId {
        WithoutSnoc(LiveReplies(order[..|order| - 1], byId), byId[x], id);
      }
    }
  }

  lemma {:induction false} NoneWithout(order: seq<string>, byId: map<string, ReplySnapshot>, id: string)
    requires id !in byId && forall x :: x in byId ==> byId[x].id == x
    ensures LiveReplies(order, byId) == Without(LiveReplies(order, byId), id)
  {
    if order != [] {
      NoneWithout(order[..|order| - 1], byId, id);
      LiveSnoc(order, byId);
      var x := order[|order| - 1];
      if x in byId {
        WithoutSnoc(LiveReplies(order[..|order| - 1], byId), byId[x], id);
      }
    }
  }

  lemma ReplyDeletionStep(st: FoldView, e: CommentEvent)
    requires e.kind.ReplyDeleted? && RepliesInv(st.replyOrder, st.replyById)
    ensures Finalize(Step(st, e)) == Finalize(st).(replies := Without(Finalize(st).replies, e.replyId))
  {
    hide Toggle;
    if e.replyId in st.replyById {
      LiveWithout(st.replyOrder, st.replyById, e.replyId, st.replyById[e.replyId].(deleted := true));
    } else {
      NoneWithout(st.replyOrder, st.replyById, e.replyId);
    }
  }

  /** Deleting a reply drops every reply of that id from the snapshot at the deletion's version and
      leaves all else, the comment's own deletion mark included; earlier versions and other comments
      read as before. */
  lemma DeleteReplyDrops(b: Book, op: CommentOp, at: string, clock: string, i: nat, w: int)
    requires GoodBook(b) && op.DeleteOp? && IsReplyHost(Migrate(b, clock).list, op.id, i)
    requires IsFiniteVersion(w) && w <= op.version && IsFiniteVersion(op.version)
    ensures var m := Migrate(b, clock);
      var (r, res) := ApplyOp(b, op, at, clock);
      && res == OpResult(200, OkBody, false)
      && OnlyAt(m.list, r.list, i)
      && (Snapshot(m.list[i], w).Some? ==>
            var was := Snapshot(m.list[i], w).value;
            Snapshot(r.list[i], w) ==
            Some(if w == op.version then was.(replies := Without(was.replies, op.id)) else was))
  {
    hide Each, GoodBook, IsReplyHost, GoodLog, Finalize, Step, FoldEvents, Ordered, VisibleAt;
    var m := Migrate(b, clock);
    HostFound(m.list, op.id);
    assert i < |m.list| by {
      assert IsReplyHost(m.list, op.id, i);
    }
    GoodAt(b, clock, i);
    var c := m.list[i];
    var e := BlankEvent(ReplyDeleted, op.version, at).(replyId := op.id, user := op.actor);
    if Snapshot(c, w).Some? {
      AppendedReads(c, e, m.serial, w);
      RepliesTidy(c, w);
      ReplyDeletionStep(Replay(c, Events(c), w), Stamp(e, m.serial));
    }
  }

  lemma RepliesTidy(c: Comment, w: int)
    ensures var st := Replay(c, Events(c), w); RepliesInv(st.replyOrder, st.replyById)
  {
    FoldKeeps(EmptyView(c), VisibleAt(Ordered(Events(c)), w));
  }

  /** A deletion that names nothing changes no comment. */
  lemma DeleteNothing(b: Book, op: CommentOp, at: string, clock: string)
    requires op.DeleteOp? && NoHostOf(Migrate(b, clock).list, op.id)
    ensures ApplyOp(b, op, at, clock) == (Migrate(b, clock), OpResult(404, ErrorBody("not_found"), false))
  {
    HostFound(Migrate(b, clock).list, op.id);
  }

  // ---------------------------------------------------------------- creating

  lemma CreatedReads(c: Comment, e: CommentEvent, w: int)
    requires e.kind.Created?
    ensures SnapshotOf(c, [e], w) ==
      if c.createdIn > ReadAt(w) then None
      else if Visible(e, ReadAt(w)) then Some(EmptySnapshot(c).(anchor := e.anchor, text := e.text))
      else Some(EmptySnapshot(c))
  {
    hide Toggle, LiveReplies;
    var at := ReadAt(w);
    FoldSnoc(EmptyView(c), [], e);
    DedupSnoc([], e);
    VisibleSnoc([], e, at);
    assert [] + [e] == [e];
    StableSortSnoc([], e);
    assert LiveReplies([], map[]) == [] by {
      NoneLive();
    }
  }

  lemma NoneLive()
    ensures LiveReplies([], map[]) == []
  {
  }

  /** A created comment stands last, reads the operation's text and anchor from its version on, open and
      without replies or reactions, and is not there before. */
  lemma CreateAdds(b: Book, op: CommentOp, at: string, clock: string, w: int)
    requires op.CreateOp? && IsFiniteVersion(op.version)
    ensures var m := Migrate(b, clock);
      var (r, res) := ApplyOp(b, op, at, clock);
      var made := CommentSnapshot(op.id, op.author, at, op.version, op.version, op.anchor, op.text, Open, None,
                                   [], map[], false);
      && |r.list| == |m.list| + 1 && r.list[..|m.list|] == m.list
      && r.list[|m.list|].id == op.id
      && (op.version <= w || !IsFiniteVersion(w) ==> Snapshot(r.list[|m.list|], w) == Some(made))
      && (IsFiniteVersion(w) && w < op.version ==> Snapshot(r.list[|m.list|], w).None?)
      && res == OpResult(200, SnapshotBody(Some(made)), false)
  {
    hide SnapshotOf, Each;
    var m := Migrate(b, clock);
    var c := ApplyOp(b, op, at, clock).0.list[|m.list|];
    CreatedReads(c, c.events.value[0], w);
    CreatedReads(c, c.events.value[0], op.version);
  }

  // ---------------------------------------------------------------- replying

  lemma {:induction false} LiveOthers(order: seq<string>, byId: map<string, ReplySnapshot>, id: string,
                                      r: ReplySnapshot)
    requires id !in order
    ensures LiveReplies(order, byId[id := r]) == LiveReplies(order, byId)
  {
    if order != [] {
      LiveOthers(order[..|order| - 1], byId, id, r);
    }
  }

  lemma ReplyStep(st: FoldView, e: CommentEvent)
    requires e.kind.ReplyAdded? && e.reply.Some? && e.reply.value.id != "" && e.reply.value.id !in st.replyOrder
    ensures Finalize(Step(st, e)) ==
      Finalize(st).(replies := Finalize(st).replies + [NewReply(st.snap.id, e.reply.value, e.at)])
  {
    hide Toggle;
    var id := e.reply.value.id;
    var r := NewReply(st.snap.id, e.reply.value, e.at);
    LiveOthers(st.replyOrder, st.replyById, id, r);
    assert (st.replyOrder + [id])[..|st.replyOrder|] == st.replyOrder;
  }

  lemma {:induction false} OrderFromAdds(st: FoldView, s: Log, id: string)
    requires st.replyOrder == [] && forall k :: 0 <= k < |s| ==> !AddsReply(s[k], id)
    ensures id !in FoldEvents(st, s).replyOrder
  {
    hide StepReply, Toggle, NewReply;
    if s != [] {
      OrderFromAdds(st, s[..|s| - 1], id);
    }
  }

  lemma NotYetAdded(c: Comment, id: string, w: int)
    requires !HoldsReply(c, id)
    ensures id !in Replay(c, Events(c), w).replyOrder
  {
    var s := VisibleAt(Ordered(Events(c)), w);
    forall k | 0 <= k < |s| ensures !AddsReply(s[k], id) {
      ReadersSee(Events(c), w, s[k]);
      DedupMembers(Events(c));
    }
    OrderFromAdds(EmptyView(c), s, id);
  }

  lemma ReplayId(c: Comment, w: int)
    ensures Replay(c, Events(c), w).snap.id == c.id
  {
    FoldId(c, VisibleAt(Ordered(Events(c)), w));
  }

  lemma {:induction false} FoldId(c: Comment, s: Log)
    ensures FoldEvents(EmptyView(c), s).snap.id == c.id
  {
    if s != [] {
      FoldId(c, s[..|s| - 1]);
      StepKeepsId(FoldEvents(EmptyView(c), s[..|s| - 1]), s[|s| - 1]);
    }
  }

  /** A reply under an id the parent does not hold yet is listed last in the parent's snapshot at the
      reply's version, with the operation's author and text; all else reads as before. */
  lemma ReplyAdds(b: Book, op: CommentOp, at: string, clock: string, i: nat, w: int)
    requires GoodBook(b) && op.ReplyOp? && IsComment(Migrate(b, clock).list, op.parentId, i)
    requires op.replyId != "" && !HoldsReply(Migrate(b, clock).list[i], op.replyId)
    requires IsFiniteVersion(w) && w <= op.version && IsFiniteVersion(op.version)
    ensures var m := Migrate(b, clock);
      var (r, res) := ApplyOp(b, op, at, clock);
      var reply := ReplySnapshot(op.replyId, op.parentId, op.author, op.text, None, at, map[], false);
      && res == OpResult(200, ReplyBody(op.replyId, op.parentId, op.author, op.text, at, op.version), false)
      && OnlyAt(m.list, r.list, i)
      && (Snapshot(m.list[i], w).Some? ==>
            var was := Snapshot(m.list[i], w).value;
            Snapshot(r.list[i], w) == Some(if w == op.version then was.(replies := was.replies + [reply]) else was))
  {
    hide Each, GoodBook, GoodLog, Finalize, Step, FoldEvents, Ordered, VisibleAt, HoldsReply;
    var m := Migrate(b, clock);
    HostFound(m.list, op.parentId);
    GoodAt(b, clock, i);
    var c := m.list[i];
    var e := BlankEvent(ReplyAdded, op.version, at).(reply := Some(ReplySeed(op.replyId, op.author, op.text, "")));
    if Snapshot(c, w).Some? {
      AppendedReads(c, e, m.serial, w);
      NotYetAdded(c, op.replyId, w);
      ReplayId(c, w);
      ReplyStep(Replay(c, Events(c), w), Stamp(e, m.serial));
    }
  }

  lemma ReplyToNothing(b: Book, op: CommentOp, at: string, clock: string)
    requires op.ReplyOp? && NoComment(Migrate(b, clock).list, op.parentId)
    ensures ApplyOp(b, op, at, clock) == (Migrate(b, clock), OpResult(404, ErrorBody("parent_not_found"), false))
  {
    HostFound(Migrate(b, clock).list, op.parentId);
  }

  // ---------------------------------------------------------------- moving the anchor

  lemma AnchorStep(st: FoldView, e: CommentEvent)
    requires e.kind.AnchorChanged?
    ensures Finalize(Step(st, e)) ==
      if e.resetStatus == Some(true) then Finalize(st).(anchor := e.anchor, status := Open, appliedIn := None)
      else Finalize(st).(anchor := e.anchor)
  {
    hide Toggle, LiveReplies;
  }

  /** Patching an anchor puts the operation's anchor into the snapshot at its version and, on a reset,
      opens the comment; all else reads as before, and the answer is the snapshot that results. */
  lemma PatchAnchorMoves(b: Book, op: CommentOp, at: string, clock: string, i: nat, w: int)
    requires GoodBook(b) && op.PatchAnchorOp? && IsComment(Migrate(b, clock).list, op.id, i)
    requires IsFiniteVersion(w) && w <= op.version && IsFiniteVersion(op.version)
    ensures var m := Migrate(b, clock);
      var (r, res) := ApplyOp(b, op, at, clock);
      && OnlyAt(m.list, r.list, i)
      && res == OpResult(200, SnapshotBody(Snapshot(r.list[i], op.version)), false)
      && (Snapshot(m.list[i], w).Some? ==>
            var was := Snapshot(m.list[i], w).value;
            var moved := was.(anchor := op.anchor);
            Snapshot(r.list[i], w) ==
            Some(if w < op.version then was
                 else if op.resetStatus then moved.(status := Open, appliedIn := None) else moved))
  {
    hide Each, GoodBook, GoodLog, Finalize, Step, FoldEvents, Ordered, VisibleAt;
    var m := Migrate(b, clock);
    HostFound(m.list, op.id);
    GoodAt(b, clock, i);
    var c := m.list[i];
    var e := BlankEvent(AnchorChanged, op.version, at).(
      resetStatus := Some(op.resetStatus), anchor := op.anchor, user := op.actor);
    if Snapshot(c, w).Some? {
      AppendedReads(c, e, m.serial, w);
      AnchorStep(Replay(c, Events(c), w), Stamp(e, m.serial));
    }
  }

  lemma PatchNothing(b: Book, op: CommentOp, at: string, clock: string)
    requires op.PatchAnchorOp? && NoComment(Migrate(b, clock).list, op.id)
    ensures ApplyOp(b, op, at, clock) == (Migrate(b, clock), OpResult(404, ErrorBody("not_found"), false))
  {
    HostFound(Migrate(b, clock).list, op.id);
  }

  // ---------------------------------------------------------------- reacting

  /** A react on a reply listed at its version turns exactly that one membership over and changes
      nothing else in the snapshot. */
  lemma ReactOnReply(b: Book, op: CommentOp, at: string, clock: string, i: nat)
    requires GoodBook(b) && op.ReactOp? && op.emoji != "" && op.user != "" && op.id != ""
    requires IsFiniteVersion(op.version) && IsReplyHost(Migrate(b, clock).list, op.id, i)
    requires ListsReply(Snapshot(Migrate(b, clock).list[i], op.version), op.id)
    ensures var m := Migrate(b, clock);
      var (r, res) := ApplyOp(b, op, at, clock);
      && OnlyAt(m.list, r.list, i) && Snapshot(r.list[i], op.version).Some?
      && var was, now := Snapshot(m.list[i], op.version).value, Snapshot(r.list[i], op.version).value;
      && now == was.(replies := now.replies)
      && RepliesTurned(was.replies, now.replies, op.id, op.emoji, op.user)
  {
    hide Each, React, Snapshot, RepliesTurned;
    var m := Migrate(b, clock);
    HostFound(m.list, op.id);
    EachRemembers(b, MigratePass(clock));
    ReplyReactTurns(m, op, at, i);
  }

  lemma ReplyReactTurns(m: Book, op: CommentOp, at: string, i: nat)
    requires GoodBook(m) && op.ReactOp? && op.emoji != "" && op.user != "" && op.id != ""
    requires IsFiniteVersion(op.version) && FindHost(m.list, op.id) == ReplyHost(i)
    requires ListsReply(Snapshot(m.list[i], op.version), op.id)
    ensures var r := React(m, op, at).0;
      && OnlyAt(m.list, r.list, i) && Snapshot(r.list[i], op.version).Some?
      && var was, now := Snapshot(m.list[i], op.version).value, Snapshot(r.list[i], op.version).value;
      && now == was.(replies := now.replies)
      && RepliesTurned(was.replies, now.replies, op.id, op.emoji, op.user)
  {
    hide GoodBook, SnapshotOf, Toggle, Reacted, FindReply, Tidy, RepliesTurned, FlipsOne;
    ReplyReactFlips(m, op, at);
    ReplyTurnedOver(m.list[i], op, at, m.serial);
  }

  lemma ReplyTurnedOver(c: Comment, op: CommentOp, at: string, serial: nat)
    requires op.ReactOp? && op.emoji != "" && op.user != "" && op.id != ""
    requires ListsReply(Snapshot(c, op.version), op.id)
    ensures var was := Snapshot(c, op.version).value;
      var e := Stamp(ReactEvent(op.id, Reacted(ReactionsOf(was, op.id), op.emoji, op.user), op, at), serial);
      RepliesTurned(was.replies, FlipListed(was.replies, e), op.id, op.emoji, op.user)
  {
    hide SnapshotOf, Toggle, Reacted, FindReply, Tidy, RepliesTurned, FlipListed;
    var was := Snapshot(c, op.version).value;
    SnapshotTidy(c, Events(c), op.version);
    FindReplyFound(was.replies, op.id);
    Turned(was.replies, Stamp(ReactEvent(op.id, Reacted(ReactionsOf(was, op.id), op.emoji, op.user), op, at), serial));
  }

  predicate ListsReply(snap: Option<CommentSnapshot>, id: string) {
    snap.Some? && exists r :: r in snap.value.replies && r.id == id
  }

  /** The replies are the same but for the reactions of those with this id, which take the membership in or
      out as the first of them lacked or had it. */
  ghost predicate RepliesTurned(was: seq<ReplySnapshot>, now: seq<ReplySnapshot>, id: string, emoji: string,
                                user: string)
  {
    |now| == |was| && forall k :: 0 <= k < |was| ==> ReplyTurned(was, was[k], now[k], id, emoji, user)
  }

  ghost predicate ReplyTurned(was: seq<ReplySnapshot>, x: ReplySnapshot, y: ReplySnapshot, id: string, emoji: string,
                              user: string)
  {
    if x.id != id then y == x
    else
      && y == x.(reactions := y.reactions)
      && forall m, u :: Reacted(y.reactions, m, u) <==>
           if m == emoji && u == user then FirstLacks(was, id, m, u) else Reacted(x.reactions, m, u)
  }

  /** The first of the replies with this id has not the membership. */
  ghost predicate FirstLacks(was: seq<ReplySnapshot>, id: string, emoji: string, user: string) {
    exists j :: 0 <= j < |was| && was[j].id == id && (forall h :: 0 <= h < j ==> was[h].id != id)
           && !Reacted(was[j].reactions, emoji, user)
  }

  lemma FirstFound(was: seq<ReplySnapshot>, id: string, emoji: string, user: string)
    requires FindReply(was, id) < |was|
    ensures FirstLacks(was, id, emoji, user) <==> !Reacted(was[FindReply(was, id)].reactions, emoji, user)
  {
    hide Reacted;
    var j := FindReply(was, id);
    assert was[j].id == id;
  }

  lemma Turned(was: seq<ReplySnapshot>, e: CommentEvent)
    requires e.emoji != "" && e.user != ""
    requires forall k :: 0 <= k < |was| ==> Tidy(was[k].reactions)
    requires FindReply(was, e.replyId) < |was|
    requires var j := FindReply(was, e.replyId);
      e.kind == if Reacted(was[j].reactions, e.emoji, e.user) then ReplyReactionRemoved else ReplyReactionAdded
    ensures RepliesTurned(was, FlipListed(was, e), e.replyId, e.emoji, e.user)
  {
    hide Tidy, Toggle, Reacted, ReplyTurned, StepReply;
    forall k | 0 <= k < |was|
      ensures ReplyTurned(was, was[k], FlipListed(was, e)[k], e.replyId, e.emoji, e.user)
    {
      TurnedOne(was, k, e);
    }
  }

  lemma TurnedOne(was: seq<ReplySnapshot>, k: nat, e: CommentEvent)
    requires e.emoji != "" && e.user != "" && k < |was| && Tidy(was[k].reactions)
    requires FindReply(was, e.replyId) < |was|
    requires var j := FindReply(was, e.replyId);
      e.kind == if Reacted(was[j].reactions, e.emoji, e.user) then ReplyReactionRemoved else ReplyReactionAdded
    ensures ReplyTurned(was, was[k], if was[k].id == e.replyId then StepReply(was[k], e) else was[k], e.replyId,
                e.emoji, e.user)
  {
    hide Tidy, Toggle, Reacted, FirstLacks, FindReply;
    FirstFound(was, e.replyId, e.emoji, e.user);
    ToggleExact(was[k].reactions, e.emoji, e.user, e.kind.ReplyReactionAdded?);
  }

  predicate ApartFromReactions(pick: Pick) {
    pick.ContentEvents? || pick.StatusEvents? || pick.ReplyEvents?
  }

  lemma ReactionUnpicked(s: Log, serial: nat, e: CommentEvent, pick: Pick)
    requires GoodLog(s, serial) && IsReaction(e.kind) && e.eid.ReactionEid?
    requires ApartFromReactions(pick) || (pick.ReactionsBy? && e.eid.key != pick.emoji + ":" + pick.user
                                          && e.eid.key == e.emoji + ":" + e.user)
    ensures Select(Dedup(s + [e]), pick) == Select(Dedup(s), pick)
  {
    hide Select, Dedup;
    var d := Dedup(s);
    DedupSnoc(s, e);
    DedupGood(s, serial);
    var i := IndexOfEid(d, e.eid);
    if i < |d| {
      assert GoodEid(d[i], serial);
      SelectReplaced(d, i, e, pick);
    } else {
      SelectSnoc(d, e, pick);
    }
  }

  lemma ReactionSeenApart(c: Comment, s: Log, serial: nat, e: CommentEvent, pick: Pick, v: int)
    requires GoodLog(s, serial) && IsReaction(e.kind) && e.eid.ReactionEid? && ApartFromReactions(pick)
    ensures Agree(pick, Replay(c, s + [e], v), Replay(c, s, v))
  {
    hide FoldEvents, VisibleAt, Select, Dedup, StableSort;
    ReactionUnpicked(s, serial, e, pick);
    SelectSeen(Dedup(s), v, pick);
    SelectSeen(Dedup(s + [e]), v, pick);
    FoldAgrees(pick, EmptyView(c), VisibleAt(Ordered(s), v));
    FoldAgrees(pick, EmptyView(c), VisibleAt(Ordered(s + [e]), v));
  }

  lemma OtherKeysKept(c: Comment, s: Log, serial: nat, e: CommentEvent, emoji: string, user: string, v: int)
    requires GoodLog(s, serial) && IsReaction(e.kind)
    requires e.eid == ReactionEid(e.kind.ReactionAdded?, Key(e.emoji, e.user))
    requires Key(emoji, user) != Key(e.emoji, e.user) && emoji != "" && user != ""
    ensures Reacted(Replay(c, s + [e], v).snap.reactions, emoji, user) <==>
            Reacted(Replay(c, s, v).snap.reactions, emoji, user)
  {
    hide FoldEvents, VisibleAt, Select, Dedup, StableSort, Reacted;
    var pick := ReactionsBy(emoji, user);
    ReactionUnpicked(s, serial, e, pick);
    SelectSeen(Dedup(s), v, pick);
    SelectSeen(Dedup(s + [e]), v, pick);
    EmptyUnreacted(c, emoji, user);
    LastReactionDecides(EmptyView(c), VisibleAt(Ordered(s), v), emoji, user);
    LastReactionDecides(EmptyView(c), VisibleAt(Ordered(s + [e]), v), emoji, user);
  }

  lemma ReactionReads(c: Comment, s: Log, serial: nat, e: CommentEvent, v: int)
    requires GoodLog(s, serial) && IsReaction(e.kind)
    requires e.eid == ReactionEid(e.kind.ReactionAdded?, Key(e.emoji, e.user))
    requires SnapshotOf(c, s, v).Some?
    ensures SnapshotOf(c, s + [e], v).Some?
    ensures var was, now := SnapshotOf(c, s, v).value, SnapshotOf(c, s + [e], v).value;
      now == was.(reactions := now.reactions) && OthersKept(was.reactions, now.reactions, e.emoji, e.user)
  {
    hide FoldEvents, VisibleAt, Toggle, LiveReplies, Reacted, Ordered, Key;
    var at := ReadAt(v);
    var x, y := Replay(c, s, at), Replay(c, s + [e], at);
    ReactionSeenApart(c, s, serial, e, ContentEvents, at);
    ReactionSeenApart(c, s, serial, e, StatusEvents, at);
    ReactionSeenApart(c, s, serial, e, ReplyEvents, at);
    KeepsIdentity(c, VisibleAt(Ordered(s), at));
    KeepsIdentity(c, VisibleAt(Ordered(s + [e]), at));
    FoldKeeps(EmptyView(c), VisibleAt(Ordered(s), at));
    FoldKeeps(EmptyView(c), VisibleAt(Ordered(s + [e]), at));
    OthersKeptKeys(Finalize(x).reactions, Finalize(y).reactions, e.emoji, e.user);
    forall emoji, user | emoji != "" && user != "" && Key(emoji, user) != Key(e.emoji, e.user)
      ensures Reacted(Finalize(y).reactions, emoji, user) <==> Reacted(Finalize(x).reactions, emoji, user)
    {
      OtherKeysKept(c, s, serial, e, emoji, user, at);
      FinalMembership(x, emoji, user);
      FinalMembership(y, emoji, user);
    }
  }

  /** The memberships whose key is another than emoji + ":" + user are the same in both. */
  ghost predicate OthersKept(was: Reactions, now: Reactions, emoji: string, user: string) {
    forall m, u :: m != "" && u != "" && m + ":" + u != emoji + ":" + user ==>
      (Reacted(now, m, u) <==> Reacted(was, m, u))
  }

  lemma OthersKeptKeys(was: Reactions, now: Reactions, emoji: string, user: string)
    ensures (forall m, u :: m != "" && u != "" && Key(m, u) != Key(emoji, user) ==>
               (Reacted(now, m, u) <==> Reacted(was, m, u))) ==> OthersKept(was, now, emoji, user)
  {
  }

  /** A react on a comment changes, at every version, the reactions alone, and there no membership of
      another key; it answers the reactions that result. */
  lemma ReactOnComment(b: Book, op: CommentOp, at: string, clock: string, i: nat, w: int)
    requires GoodBook(b) && op.ReactOp? && IsComment(Migrate(b, clock).list, op.id, i)
    requires Snapshot(Migrate(b, clock).list[i], op.version).Some?
    ensures var m := Migrate(b, clock);
      var (r, res) := ApplyOp(b, op, at, clock);
      && OnlyAt(m.list, r.list, i)
      && Snapshot(r.list[i], op.version).Some?
      && res == OpResult(200, ReactionsBody(Snapshot(r.list[i], op.version).value.reactions), false)
      && (Snapshot(m.list[i], w).Some? ==> Snapshot(r.list[i], w).Some?)
      && (Snapshot(m.list[i], w).Some? ==>
            var was, now := Snapshot(m.list[i], w).value, Snapshot(r.list[i], w).value;
            now == was.(reactions := now.reactions) && OthersKept(was.reactions, now.reactions, op.emoji, op.user))
  {
    hide Each, GoodBook, GoodLog, SnapshotOf, OthersKept;
    var m := Migrate(b, clock);
    HostFound(m.list, op.id);
    GoodAt(b, clock, i);
    var c := m.list[i];
    var had := Reacted(Snapshot(c, op.version).value.reactions, op.emoji, op.user);
    var e := Stamp(ReactEvent("", had, op, at), m.serial);
    var d := Append(c, ReactEvent("", had, op, at), m.serial).0;
    SameIdentity(c, d, Events(d), w);
    SameIdentity(c, d, Events(d), op.version);
    ReactionReads(c, Events(c), m.serial, e, op.version);
    if Snapshot(c, w).Some? {
      ReactionReads(c, Events(c), m.serial, e, w);
    }
  }

  /** A react on a comment turns its own membership over if and only if it takes effect. */
  lemma ReactFlipsExactly(b: Book, op: CommentOp, at: string, clock: string, i: nat)
    requires GoodBook(b) && op.ReactOp? && IsComment(Migrate(b, clock).list, op.id, i)
    requires Reactable(Migrate(b, clock).list[i], Migrate(b, clock).serial, op)
    ensures var m := Migrate(b, clock);
      var r := ApplyOp(b, op, at, clock).0;
      && i < |r.list| && Snapshot(r.list[i], op.version).Some?
      && (ReactedAt(r.list[i], op) == !ReactedAt(m.list[i], op) <==> TakesEffect(m.list[i], m.serial, op))
  {
    hide Each, TakesEffect, ReactedAt, Snapshot;
    var m := Migrate(b, clock);
    HostFound(m.list, op.id);
    EachRemembers(b, MigratePass(clock));
    ParentReactFlipsExactly(m, op, at);
  }

  /** A react names nothing, or a comment that is not there yet at its version: nothing changes. */
  lemma ReactOnNothing(b: Book, op: CommentOp, at: string, clock: string)
    requires op.ReactOp?
    ensures var m := Migrate(b, clock);
      && (NoHostOf(m.list, op.id) ==>
            ApplyOp(b, op, at, clock) == (m, OpResult(404, ErrorBody("not_found"), false)))
      && forall i: nat ::
           (IsComment(m.list, op.id, i) || IsReplyHost(m.list, op.id, i)) && Snapshot(m.list[i], op.version).None? ==>
           ApplyOp(b, op, at, clock) == (m, OpResult(404, ErrorBody("not_visible_at_version"), false))
  {
    hide SnapshotOf, Each;
    HostFound(Migrate(b, clock).list, op.id);
  }

  // ---------------------------------------------------------------- raw events, wipes and the rest

  /** r is e with the id EventEID gives it if it has none. */
  predicate Named(e: CommentEvent, r: CommentEvent, from: nat, to: nat) {
    && r == e.(eid := r.eid)
    && if !e.eid.NoEid? then r.eid == e.eid
       else if e.kind.ReactionAdded? || e.kind.ReactionRemoved? then
         r.eid == ReactionEid(e.kind.ReactionAdded?, e.emoji + ":" + e.user)
       else if e.kind.MarkedApplied? || e.kind.MarkedOpen? || e.kind.Deleted? then
         r.eid == StateEid(e.kind, e.atVersion)
       else r.eid.OneShotEid? && from <= r.eid.serial < to
  }

  lemma {:induction false} AllAppended(c: Comment, s: Log, serial: nat)
    ensures var (d, n) := AppendAll(c, s, serial);
      && serial <= n && (s == [] ==> d == c) && d == c.(events := d.events)
      && |Events(d)| == |Events(c)| + |s| && Events(d)[..|Events(c)|] == Events(c)
      && forall k :: 0 <= k < |s| ==> Named(s[k], Events(d)[|Events(c)| + k], serial, n)
  {
    if s != [] {
      AllAppended(c, s[..|s| - 1], serial);
      var (d, n) := AppendAll(c, s[..|s| - 1], serial);
      var (d', n') := AppendAll(c, s, serial);
      assert (d', n') == Append(d, s[|s| - 1], n);
      assert Events(d') == Events(d) + [Stamp(s[|s| - 1], n)];
      assert Named(s[|s| - 1], Stamp(s[|s| - 1], n), serial, n');
      forall k | 0 <= k < |s| ensures Named(s[k], Events(d')[|Events(c)| + k], serial, n') {
        if k < |s| - 1 {
          assert Named(s[..|s| - 1][k], Events(d)[|Events(c)| + k], serial, n);
        }
      }
    }
  }

  lemma {:induction false} Backfilled(s: Log, serial: nat)
    ensures var r, n := Backfill(s, serial), NextSerial(s, serial);
      && serial <= n && |r| == |s| && (forall k :: 0 <= k < |s| ==> Named(s[k], r[k], serial, n))
      && forall i, j :: 0 <= i < j < |s| && NeedsSerial(s[i]) && NeedsSerial(s[j]) ==> r[i].eid != r[j].eid
  {
    if s != [] {
      var f, e := s[..|s| - 1], s[|s| - 1];
      Backfilled(f, serial);
      var n, n' := NextSerial(f, serial), NextSerial(s, serial);
      var q, r := Backfill(f, serial), Backfill(s, serial);
      assert r == q + [Stamp(e, n)];
      assert Named(e, Stamp(e, n), serial, n');
      forall k | 0 <= k < |s| ensures Named(s[k], r[k], serial, n') {
        if k < |f| {
          assert Named(f[k], q[k], serial, n);
        }
      }
      forall i, j | 0 <= i < j < |s| && NeedsSerial(s[i]) && NeedsSerial(s[j]) ensures r[i].eid != r[j].eid {
        if j == |f| {
          assert Named(f[i], q[i], serial, n);
        }
      }
    }
  }

  /** Where a comment has a log already, migration fills in the ids that are missing, no one-shot id twice, and
      changes nothing else. */
  lemma MigrationNames(c: Comment, clock: string, serial: nat)
    requires c.events.Some?
    ensures var (d, n) := EnsureLog(c, clock, serial);
      && d == c.(events := d.events) && |Events(d)| == |Events(c)|
      && (forall k :: 0 <= k < |Events(c)| ==> Named(Events(c)[k], Events(d)[k], serial, n))
      && forall i, j :: 0 <= i < j < |Events(c)| && NeedsSerial(Events(c)[i]) && NeedsSerial(Events(c)[j]) ==>
           Events(d)[i].eid != Events(d)[j].eid
  {
    hide Named, Backfill, NextSerial, NeedsSerial;
    Backfilled(c.events.value, serial);
  }

  /** Raw events go to the end of the comment's log, all of them, in order, each with its id filled in. */
  lemma RawEventsAppended(b: Book, op: CommentOp, at: string, clock: string, i: nat)
    requires op.RawEventsOp? && IsComment(Migrate(b, clock).list, op.id, i)
    ensures var m := Migrate(b, clock);
      var (r, res) := ApplyOp(b, op, at, clock);
      && res == OpResult(200, OkBody, false)
      && OnlyAt(m.list, r.list, i)
      && var was, now := Events(m.list[i]), Events(r.list[i]);
      && |now| == |was| + |op.events| && now[..|was|] == was
      && forall k :: 0 <= k < |op.events| ==> Named(op.events[k], now[|was| + k], m.serial, r.serial)
  {
    hide Each, Named;
    var m := Migrate(b, clock);
    HostFound(m.list, op.id);
    AllAppended(m.list[i], op.events, m.serial);
  }

  /** A wipe answers how many comments it dropped, and an unknown operation is refused. */
  lemma WipedOrUnknown(b: Book, op: CommentOp, at: string, clock: string)
    ensures op.RawEventsOp? && NoComment(Migrate(b, clock).list, op.id) ==>
      ApplyOp(b, op, at, clock) == (Migrate(b, clock), OpResult(404, ErrorBody("not_found"), false))
    ensures op.WipeOp? ==> ApplyOp(b, op, at, clock).1 == OpResult(200, WipedBody(|b.list|), true)
    ensures op.UnknownOp? ==> ApplyOp(b, op, at, clock).1 == OpResult(400, ErrorBody("unknown_op"), false)
  {
    if op.RawEventsOp? {
      HostFound(Migrate(b, clock).list, op.id);
    }
  }

  // ---------------------------------------------------------------- what is stored

  /** The operation finds nothing to work on. */
  ghost predicate Misses(list: seq<Comment>, op: CommentOp) {
    match op
    case ReplyOp(parentId, _, _, _, _) => NoComment(list, parentId)
    case PatchAnchorOp(id, _, _, _, _) => NoComment(list, id)
    case RawEventsOp(id, _) => NoComment(list, id)
    case DeleteOp(id, _, _) => NoHostOf(list, id)
    case ReactOp(id, _, _, version) =>
      NoHostOf(list, id)
      || exists i: nat :: (IsComment(list, id, i) || IsReplyHost(list, id, i)) && Snapshot(list[i], version).None?
    case UnknownOp => true
    case _ => false
  }

  /** An operation succeeds if and only if it finds something to work on, and only a wipe asks to wipe. */
  lemma SucceedsExactly(b: Book, op: CommentOp, at: string, clock: string)
    ensures var m := Migrate(b, clock);
      var (r, res) := ApplyOp(b, op, at, clock);
      && (res.status == 200 <==> !Misses(m.list, op)) && (res.wipe <==> op.WipeOp?)
  {
    hide SnapshotOf, Each, AppendAt, AppendAll, MergeLocal, Reconcile, CompactAll, IsComment, IsReplyHost, NoHostOf,
      NoComment, ReactionsOf, Reacted;
    var list := Migrate(b, clock).list;
    match op
    case ReplyOp(id, _, _, _, _) => HostFound(list, id);
    case PatchAnchorOp(id, _, _, _, _) => HostFound(list, id);
    case RawEventsOp(id, _) => HostFound(list, id);
    case DeleteOp(id, _, _) => HostFound(list, id); HostUnique(list, id);
    case ReactOp(id, _, _, _) => HostFound(list, id); HostUnique(list, id);
    case _ =>
  }

  lemma HostUnique(list: seq<Comment>, id: string)
    ensures forall i: nat :: IsComment(list, id, i) || IsReplyHost(list, id, i) ==> !NoHostOf(list, id)
    ensures forall i: nat :: IsComment(list, id, i) ==> !NoComment(list, id)
    ensures forall i: nat, j: nat :: IsComment(list, id, i) && IsComment(list, id, j) ==> i == j
    ensures forall i: nat, j: nat :: IsReplyHost(list, id, i) && IsReplyHost(list, id, j) ==> i == j
    ensures forall i: nat, j: nat :: IsComment(list, id, i) ==> !IsReplyHost(list, id, j)
  {
  }

  /** What a request leaves stored: nothing after a wipe, the list as it was when the operation finds
      nothing to work on, and what the operation made of it otherwise. */
  lemma Stored(b: Book, call: Call)
    ensures var now := Serve(b, call).list;
      if call.op.WipeOp? then now == []
      else if Misses(Migrate(b, call.clock).list, call.op) then now == b.list
      else now == ApplyOp(b, call.op, call.at, call.clock).0.list
  {
    hide ApplyOp, Misses;
    SucceedsExactly(b, call.op, call.at, call.clock);
    assert call.op.WipeOp? ==> !Misses(Migrate(b, call.clock).list, call.op) by {
      WipeFinds(Migrate(b, call.clock).list, call.op);
    }
  }

  lemma WipeFinds(list: seq<Comment>, op: CommentOp)
    ensures op.WipeOp? ==> !Misses(list, op)
  {
  }
}
