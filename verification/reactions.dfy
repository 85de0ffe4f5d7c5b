/** Reacting through the log: which memberships a react operation changes, and when it changes its own. */
module ReactionLaws {
  import opened CommentTypes
  import opened EventLog
  import opened CommentFold
  import opened LegacyMigration
  import opened CommentOps
  import opened CommentRuns
  import opened Selection

  // ---------------------------------------------------------------- replies

  function FlipListed(replies: seq<ReplySnapshot>, e: CommentEvent): seq<ReplySnapshot> {
    seq(|replies|, i requires 0 <= i < |replies| =>
      if replies[i].id == e.replyId then StepReply(replies[i], e) else replies[i])
  }

  lemma {:induction false} LiveRepliesFlip(order: seq<string>, byId: map<string, ReplySnapshot>, e: CommentEvent)
    requires e.kind.ReplyReactionAdded? || e.kind.ReplyReactionRemoved?
    requires e.replyId in byId && forall id :: id in byId ==> byId[id].id == id
    ensures LiveReplies(order, byId[e.replyId := StepReply(byId[e.replyId], e)]) ==
      FlipListed(LiveReplies(order, byId), e)
  {
    if order != [] {
      LiveRepliesFlip(order[..|order| - 1], byId, e);
    }
  }

  lemma FinalizeFlip(st: FoldView, e: CommentEvent)
    requires e.kind.ReplyReactionAdded? || e.kind.ReplyReactionRemoved?
    requires RepliesInv(st.replyOrder, st.replyById) && e.replyId in st.replyById
    ensures Finalize(Step(st, e)) == Finalize(st).(replies := FlipListed(Finalize(st).replies, e))
  {
    LiveRepliesFlip(st.replyOrder, st.replyById, e);
  }

  lemma ListedIsKnown(c: Comment, s: Log, v: int, id: string)
    requires SnapshotOf(c, s, v).Some?
    requires exists r :: r in SnapshotOf(c, s, v).value.replies && r.id == id
    ensures id in Replay(c, s, ReadAt(v)).replyById
  {
    var st := Replay(c, s, ReadAt(v));
    FoldKeeps(EmptyView(c), VisibleAt(Ordered(s), ReadAt(v)));
    LiveRepliesFrom(st.replyOrder, st.replyById);
  }

  /** An event about a reply, under a new id, changes that reply alone in the snapshot at its version. */
  lemma ReplyReactionExact(c: Comment, s: Log, e: CommentEvent)
    requires e.kind.ReplyReactionAdded? || e.kind.ReplyReactionRemoved?
    requires !HasEid(s, e.eid) && IsFiniteVersion(e.atVersion)
    requires SnapshotOf(c, s, e.atVersion).Some?
    requires exists r :: r in SnapshotOf(c, s, e.atVersion).value.replies && r.id == e.replyId
    ensures var snap := SnapshotOf(c, s, e.atVersion).value;
      SnapshotOf(c, s + [e], e.atVersion) == Some(snap.(replies := FlipListed(snap.replies, e)))
  {
    AppendLaw(c, s, e, e.atVersion);
    FoldKeeps(EmptyView(c), VisibleAt(Ordered(s), e.atVersion));
    ListedIsKnown(c, s, e.atVersion, e.replyId);
    FinalizeFlip(Replay(c, s, e.atVersion), e);
  }

  lemma FreshSerial(s: Log, serial: nat)
    requires GoodLog(s, serial)
    ensures !HasEid(s, OneShotEid(serial))
  {
    assert forall i :: 0 <= i < |s| ==> GoodEid(s[i], serial) && s[i].eid != OneShotEid(serial);
  }

  lemma {:induction false} FindReplyAfterFlip(replies: seq<ReplySnapshot>, e: CommentEvent)
    requires forall r :: StepReply(r, e).id == r.id
    ensures FindReply(FlipListed(replies, e), e.replyId) == FindReply(replies, e.replyId)
  {
    if replies != [] && replies[0].id != e.replyId {
      FindReplyAfterFlip(replies[1..], e);
      assert FlipListed(replies, e)[1..] == FlipListed(replies[1..], e);
    }
  }

  lemma FindReplyFound(replies: seq<ReplySnapshot>, id: string)
    requires exists r :: r in replies && r.id == id
    ensures FindReply(replies, id) < |replies|
  {
    var r :| r in replies && r.id == id;
    var k :| 0 <= k < |replies| && replies[k] == r;
  }

  /** A react on a reply that is listed at the operation's version flips exactly that one membership of
      that reply, leaves the rest of the snapshot as it was, and touches no other comment. */
  lemma ReplyReactFlips(b: Book, op: CommentOp, at: string)
    requires GoodBook(b) && op.ReactOp? && op.emoji != "" && op.user != ""
    requires IsFiniteVersion(op.version)
    requires FindHost(b.list, op.id).ReplyHost? && op.id != ""
    requires var snap := Snapshot(b.list[FindHost(b.list, op.id).index], op.version);
      snap.Some? && exists r :: r in snap.value.replies && r.id == op.id
    ensures var h := FindHost(b.list, op.id).index;
      var was := Snapshot(b.list[h], op.version).value;
      var e := Stamp(ReactEvent(op.id, Reacted(ReactionsOf(was, op.id), op.emoji, op.user), op, at), b.serial);
      var r := React(b, op, at).0;
      && r.list == b.list[h := r.list[h]]
      && Snapshot(r.list[h], op.version) == Some(was.(replies := FlipListed(was.replies, e)))
      && FlipsOne(ReactionsOf(was, op.id), ReactionsOf(Snapshot(r.list[h], op.version).value, op.id), op.emoji, op.user)
  {
    var h := FindHost(b.list, op.id).index;
    var c, s := b.list[h], Events(b.list[h]);
    var was := Snapshot(c, op.version).value;
    var had := Reacted(ReactionsOf(was, op.id), op.emoji, op.user);
    var e := Stamp(ReactEvent(op.id, had, op, at), b.serial);
    assert GoodLog(s, b.serial);
    FreshSerial(s, b.serial);
    ReplyReactionExact(c, s, e);
    FlipListedFlips(c, s, op.version, e);
  }

  /** b is a with exactly the membership of user under emoji turned over. */
  ghost predicate FlipsOne(a: Reactions, b: Reactions, emoji: string, user: string) {
    forall m, u :: Reacted(b, m, u) <==> if m == emoji && u == user then !Reacted(a, m, u) else Reacted(a, m, u)
  }

  lemma FlipListedFlips(c: Comment, s: Log, v: int, e: CommentEvent)
    requires SnapshotOf(c, s, v).Some? && e.emoji != "" && e.user != "" && e.replyId != ""
    requires exists r :: r in SnapshotOf(c, s, v).value.replies && r.id == e.replyId
    requires var had := Reacted(ReactionsOf(SnapshotOf(c, s, v).value, e.replyId), e.emoji, e.user);
      e.kind == if had then ReplyReactionRemoved else ReplyReactionAdded
    ensures var was := SnapshotOf(c, s, v).value;
      FlipsOne(ReactionsOf(was, e.replyId), ReactionsOf(was.(replies := FlipListed(was.replies, e)), e.replyId),
          e.emoji, e.user)
  {
    hide Tidy, FlipsOne, Toggle, Reacted, SnapshotOf;
    var replies := SnapshotOf(c, s, v).value.replies;
    SnapshotTidy(c, s, v);
    FindReplyFound(replies, e.replyId);
    FindReplyAfterFlip(replies, e);
    FlipAlone(replies[FindReply(replies, e.replyId)].reactions, e);
  }

  lemma FlipAlone(r: Reactions, e: CommentEvent)
    requires Tidy(r)
    requires e.kind == if Reacted(r, e.emoji, e.user) then ReplyReactionRemoved else ReplyReactionAdded
    ensures FlipsOne(r, Toggle(r, e.emoji, e.user, e.kind.ReplyReactionAdded?), e.emoji, e.user)
  {
    ToggleExact(r, e.emoji, e.user, e.kind.ReplyReactionAdded?);
  }

  // ---------------------------------------------------------------- parents

  lemma StepReaction(st: FoldView, e: CommentEvent, emoji: string, user: string)
    requires ViewInv(st) && emoji != "" && user != ""
    ensures Reacted(Step(st, e).snap.reactions, emoji, user) <==>
      if Picks(ReactionsBy(emoji, user), e) then e.kind.ReactionAdded? else Reacted(st.snap.reactions, emoji, user)
  {
    hide StepReply, Toggle, Reacted, Tidy, RepliesInv;
    if IsReaction(e.kind) {
      ToggleExact(st.snap.reactions, e.emoji, e.user, e.kind.ReactionAdded?);
    }
  }

  /** Membership in the fold is decided by the last reaction of that user with that emoji. */
  lemma {:induction false} LastReactionDecides(st: FoldView, s: Log, emoji: string, user: string)
    requires ViewInv(st) && !Reacted(st.snap.reactions, emoji, user) && emoji != "" && user != ""
    ensures var t := Select(s, ReactionsBy(emoji, user));
      Reacted(FoldEvents(st, s).snap.reactions, emoji, user) <==> t != [] && t[|t| - 1].kind.ReactionAdded?
  {
    if s != [] {
      var f, e := s[..|s| - 1], s[|s| - 1];
      LastReactionDecides(st, f, emoji, user);
      FoldKeeps(st, f);
      StepReaction(FoldEvents(st, f), e, emoji, user);
    }
  }

  function Key(emoji: string, user: string): string {
    emoji + ":" + user
  }

  /** Whether the verdict emoji a snapshot adds for the agent is this very membership. */
  predicate Pinned(verdict: Option<string>, emoji: string, user: string) {
    user == AGENT && verdict.Some? && VerdictEmoji(verdict.value) == emoji
  }

  /** The entry is about this emoji and user; others whose emoji and user spell the same key share its id. */
  predicate Own(e: CommentEvent, emoji: string, user: string) {
    e.emoji == emoji && e.user == user
  }

  /** Whether the membership's opposite reaction stands, at this version, behind an earlier entry that a repeated
      id would overwrite in place. */
  predicate Overtaken(d: Log, add: bool, emoji: string, user: string, v: int) {
    exists p, q :: 0 <= p < q < |d| && d[p].eid == ReactionEid(add, Key(emoji, user))
                && d[q].eid == ReactionEid(!add, Key(emoji, user)) && Own(d[q], emoji, user) && d[q].atVersion == v
  }

  /** In a collapsed log the reactions of one user with one emoji are among the entries under two ids. */
  lemma PickedByEid(d: Log, serial: nat, emoji: string, user: string, add: bool, i: nat)
    requires GoodLog(d, serial) && Stamped(d) && i < |d|
    ensures Picks(ReactionsBy(emoji, user), d[i]) <==>
      (Own(d[i], emoji, user)
       && (d[i].eid == ReactionEid(add, Key(emoji, user)) || d[i].eid == ReactionEid(!add, Key(emoji, user))))
    ensures Picks(ReactionsBy(emoji, user), d[i]) ==> d[i].eid.added == d[i].kind.ReactionAdded?
  {
    assert GoodEid(d[i], serial) && !d[i].eid.NoEid?;
  }

  /** The reactions of user with emoji in a collapsed log that holds its own entry under (add, key): that entry
      alone, or it and the membership's opposite one in log order. */
  lemma PickedEntries(d: Log, serial: nat, emoji: string, user: string, add: bool)
    requires GoodLog(d, serial) && Stamped(d) && DistinctEids(d)
    requires var p := IndexOfEid(d, ReactionEid(add, Key(emoji, user))); p < |d| && Own(d[p], emoji, user)
    ensures var key := Key(emoji, user);
      var p, q := IndexOfEid(d, ReactionEid(add, key)), IndexOfEid(d, ReactionEid(!add, key));
      && (d[p].kind.ReactionAdded? <==> add)
      && (q < |d| && Own(d[q], emoji, user) ==> (d[q].kind.ReactionAdded? <==> !add))
      && Select(d, ReactionsBy(emoji, user)) ==
           if q == |d| || !Own(d[q], emoji, user) then [d[p]] else if p < q then [d[p], d[q]] else [d[q], d[p]]
  {
    var key, pick := Key(emoji, user), ReactionsBy(emoji, user);
    var p, q := IndexOfEid(d, ReactionEid(add, key)), IndexOfEid(d, ReactionEid(!add, key));
    forall k | 0 <= k < |d| ensures Picks(pick, d[k]) <==> k == p || (k == q && Own(d[k], emoji, user)) {
      PickedByEid(d, serial, emoji, user, add, k);
    }
    PickedByEid(d, serial, emoji, user, add, p);
    if q == |d| || !Own(d[q], emoji, user) {
      SelectOne(d, pick, p);
    } else {
      PickedByEid(d, serial, emoji, user, add, q);
      if p < q {
        SelectTwo(d, pick, p, q);
      } else {
        SelectTwo(d, pick, q, p);
      }
    }
  }

  /** The last reaction a reader of version v sees, when the membership's entry under (add, key) is at v. */
  lemma LastSeen(d: Log, serial: nat, emoji: string, user: string, v: int, add: bool)
    requires GoodLog(d, serial) && Stamped(d) && DistinctEids(d) && IsFiniteVersion(v)
    requires var p := IndexOfEid(d, ReactionEid(add, Key(emoji, user)));
      p < |d| && Own(d[p], emoji, user) && d[p].atVersion == v
    ensures var t := VisibleAt(StableSort(Select(d, ReactionsBy(emoji, user))), v);
      t != [] && (t[|t| - 1].kind.ReactionAdded? <==> if Overtaken(d, add, emoji, user, v) then !add else add)
  {
    hide Select, StableSort, VisibleAt;
    var key := Key(emoji, user);
    var p, q := IndexOfEid(d, ReactionEid(add, key)), IndexOfEid(d, ReactionEid(!add, key));
    PickedEntries(d, serial, emoji, user, add);
    OvertakenByIndex(d, add, emoji, user, v);
    var sel := Select(d, ReactionsBy(emoji, user));
    if q < |d| && Own(d[q], emoji, user) {
      LastOfTwo(sel, d[p], d[q], p < q, v);
    } else {
      SeenOfOne(d[p], v);
    }
  }

  lemma LastOfTwo(sel: Log, x: CommentEvent, y: CommentEvent, xFirst: bool, v: int)
    requires IsFiniteVersion(v) && x.atVersion == v
    requires sel == if xFirst then [x, y] else [y, x]
    ensures var t := VisibleAt(StableSort(sel), v);
      t != [] && t[|t| - 1] == if xFirst && y.atVersion == v then y else x
  {
    SeenOfTwo(x, y, v);
  }

  /** Membership in the replay of a log, read off the two entries of its collapsed form. */
  lemma MembershipByEntries(c: Comment, s: Log, serial: nat, emoji: string, user: string, v: int, add: bool)
    requires GoodLog(s, serial) && Stamped(s) && emoji != "" && user != "" && IsFiniteVersion(v)
    requires var d := Dedup(s); var p := IndexOfEid(d, ReactionEid(add, Key(emoji, user)));
      p < |d| && Own(d[p], emoji, user) && d[p].atVersion == v
    ensures Reacted(Replay(c, s, v).snap.reactions, emoji, user) <==>
      if Overtaken(Dedup(s), add, emoji, user, v) then !add else add
  {
    hide Dedup, FoldEvents, VisibleAt, StableSort, Select, Overtaken, Reacted;
    EmptyUnreacted(c, emoji, user);
    DedupGood(s, serial);
    DedupDistinct(s);
    LastSeen(Dedup(s), serial, emoji, user, v, add);
    SelectSeen(Dedup(s), v, ReactionsBy(emoji, user));
    LastReactionDecides(EmptyView(c), VisibleAt(Ordered(s), v), emoji, user);
  }

  lemma OneIndex(d: Log, eid: Eid, k: nat)
    requires DistinctEids(d) && k < |d| && d[k].eid == eid && !eid.NoEid?
    ensures IndexOfEid(d, eid) == k
  {
    var i := IndexOfEid(d, eid);
    assert i <= k;
  }

  lemma OvertakenByIndex(d: Log, add: bool, emoji: string, user: string, v: int)
    requires DistinctEids(d)
    ensures var p := IndexOfEid(d, ReactionEid(add, Key(emoji, user)));
      var q := IndexOfEid(d, ReactionEid(!add, Key(emoji, user)));
      Overtaken(d, add, emoji, user, v) <==> p < q < |d| && Own(d[q], emoji, user) && d[q].atVersion == v
  {
    hide DistinctEids, Key;
    var x, y := ReactionEid(add, Key(emoji, user)), ReactionEid(!add, Key(emoji, user));
    if Overtaken(d, add, emoji, user, v) {
      var p, q :| 0 <= p < q < |d| && d[p].eid == x && d[q].eid == y && Own(d[q], emoji, user) && d[q].atVersion == v;
      OneIndex(d, x, p);
      OneIndex(d, y, q);
    }
  }

  lemma SeenOfOne(x: CommentEvent, v: int)
    requires Visible(x, v)
    ensures VisibleAt(StableSort([x]), v) == [x]
  {
    assert StableSort([]) == [];
    assert [x][..0] == [];
    assert StableSort([x]) == [x];
  }

  lemma SortOfTwo(x: CommentEvent, y: CommentEvent)
    ensures StableSort([x, y]) == if x.atVersion <= y.atVersion then [x, y] else [y, x]
  {
    assert [x, y][..1] == [x] && [x][..0] == [];
    assert StableSort([x]) == [x];
    assert Insert([], y) == [y];
  }

  lemma VisibleOfTwo(x: CommentEvent, y: CommentEvent, v: int)
    ensures VisibleAt([x, y], v) == (if Visible(x, v) then [x] else []) + (if Visible(y, v) then [y] else [])
  {
    assert [x, y][..1] == [x] && [x][..0] == [];
    assert VisibleAt([x], v) == if Visible(x, v) then [x] else [];
  }

  /** Of two entries, x at version v, the one read last in either log order. */
  lemma SeenOfTwo(x: CommentEvent, y: CommentEvent, v: int)
    requires IsFiniteVersion(v) && x.atVersion == v
    ensures var t := VisibleAt(StableSort([x, y]), v);
      t != [] && t[|t| - 1] == if y.atVersion == v then y else x
    ensures var t := VisibleAt(StableSort([y, x]), v);
      t != [] && t[|t| - 1] == x
  {
    SortOfTwo(x, y);
    SortOfTwo(y, x);
    VisibleOfTwo(x, y, v);
    VisibleOfTwo(y, x, v);
  }

  lemma FinalMembership(st: FoldView, emoji: string, user: string)
    requires ViewInv(st) && emoji != ""
    ensures Reacted(Finalize(st).reactions, emoji, user) <==>
      Reacted(st.snap.reactions, emoji, user) || Pinned(st.verdict, emoji, user)
  {
    if st.verdict.Some? {
      ToggleExact(st.snap.reactions, VerdictEmoji(st.verdict.value), AGENT, true);
    }
  }

  lemma UpsertUnpicked(s: Log, serial: nat, e: CommentEvent)
    requires GoodLog(s, serial) && IsReaction(e.kind) && e.eid.ReactionEid?
    ensures Select(Dedup(s + [e]), StatusEvents) == Select(Dedup(s), StatusEvents)
  {
    hide Select, Dedup;
    var d := Dedup(s);
    DedupSnoc(s, e);
    var i := IndexOfEid(d, e.eid);
    if i < |d| {
      DedupGood(s, serial);
      assert GoodEid(d[i], serial);
      SelectReplaced(d, i, e, StatusEvents);
    } else {
      SelectSnoc(d, e, StatusEvents);
    }
  }

  /** A reaction never changes the pending verdict, even when it overwrites an earlier one. */
  lemma ReactionKeepsVerdict(c: Comment, s: Log, serial: nat, e: CommentEvent, v: int)
    requires GoodLog(s, serial) && IsReaction(e.kind) && e.eid.ReactionEid?
    ensures Replay(c, s + [e], v).verdict == Replay(c, s, v).verdict
  {
    UpsertUnpicked(s, serial, e);
    SelectSeen(Dedup(s), v, StatusEvents);
    SelectSeen(Dedup(s + [e]), v, StatusEvents);
    FoldAgrees(StatusEvents, EmptyView(c), VisibleAt(Ordered(s), v));
    FoldAgrees(StatusEvents, EmptyView(c), VisibleAt(Ordered(s + [e]), v));
  }

  /** After upserting e, its id stands where it stood before, or at the end. */
  lemma UpsertPlace(d: Log, e: CommentEvent, add: bool, v: int)
    requires DistinctEids(d) && e.eid == ReactionEid(add, Key(e.emoji, e.user))
    ensures var u := Upsert(d, e); var p := IndexOfEid(u, e.eid);
      DistinctEids(u) && p < |u| && u[p] == e && p == IndexOfEid(d, e.eid)
    ensures Overtaken(Upsert(d, e), add, e.emoji, e.user, v) <==> Overtaken(d, add, e.emoji, e.user, v)
  {
    var u, key := Upsert(d, e), Key(e.emoji, e.user);
    var i := IndexOfEid(d, e.eid);
    assert u[i] == e;
    assert forall k :: 0 <= k < |u| && k != i ==> k < |d| && u[k] == d[k];
    if Overtaken(d, add, e.emoji, e.user, v) {
      var p, q :| 0 <= p < q < |d| && d[p].eid == ReactionEid(add, key)
               && d[q].eid == ReactionEid(!add, key) && Own(d[q], e.emoji, e.user) && d[q].atVersion == v;
      assert u[p].eid == ReactionEid(add, key) && u[q] == d[q];
    }
  }

  /** The membership a parent react leaves behind in the fold. */
  lemma ParentReactMembership(c: Comment, s: Log, serial: nat, e: CommentEvent, add: bool)
    requires GoodLog(s, serial) && Stamped(s) && e.emoji != "" && e.user != ""
    requires IsFiniteVersion(e.atVersion) && e.kind == (if add then ReactionAdded else ReactionRemoved)
    requires e.eid == ReactionEid(add, Key(e.emoji, e.user))
    ensures Reacted(Replay(c, s + [e], e.atVersion).snap.reactions, e.emoji, e.user) <==>
      if Overtaken(Dedup(s), add, e.emoji, e.user, e.atVersion) then !add else add
  {
    DedupSnoc(s, e);
    DedupDistinct(s);
    UpsertPlace(Dedup(s), e, add, e.atVersion);
    MembershipByEntries(c, s + [e], serial, e.emoji, e.user, e.atVersion, add);
  }

  lemma EmptyUnreacted(c: Comment, emoji: string, user: string)
    ensures ViewInv(EmptyView(c)) && !Reacted(EmptyView(c).snap.reactions, emoji, user)
  {
  }

  /** The membership's own add in a collapsed log, as a reader of version v sees it. */
  predicate OwnAddSeen(d: Log, emoji: string, user: string, v: int) {
    exists k :: 0 <= k < |d| && d[k].eid == ReactionEid(true, Key(emoji, user)) && Own(d[k], emoji, user)
        && Visible(d[k], v)
  }

  /** What a react does to another membership that spells the same key: an add takes it away at every version,
      a removal leaves what the other's own add says. */
  lemma SharedKeyLoses(c: Comment, s: Log, serial: nat, e: CommentEvent, add: bool, emoji: string, user: string, v: int)
    requires GoodLog(s, serial) && Stamped(s) && emoji != "" && user != ""
    requires e.kind == (if add then ReactionAdded else ReactionRemoved)
    requires e.eid == ReactionEid(add, Key(e.emoji, e.user))
    requires Key(emoji, user) == Key(e.emoji, e.user) && !Own(e, emoji, user)
    ensures Reacted(Replay(c, s + [e], v).snap.reactions, emoji, user) <==> !add && OwnAddSeen(Dedup(s), emoji, user, v)
  {
    hide Dedup, Select, StableSort, VisibleAt, FoldEvents, Reacted, ViewInv, DistinctEids, Upsert, OwnAddSeen, Picks;
    var d, u, pick := Dedup(s), Dedup(s + [e]), ReactionsBy(emoji, user);
    DedupSnoc(s, e);
    DedupDistinct(s);
    UpsertPlace(d, e, add, v);
    GoodSnoc(s, serial, e, add);
    DedupGood(s + [e], serial);
    DedupDistinct(s + [e]);
    SelectSeen(u, v, pick);
    EmptyUnreacted(c, emoji, user);
    LastReactionDecides(EmptyView(c), VisibleAt(Ordered(s + [e]), v), emoji, user);
    OthersEntry(u, serial, e, add, emoji, user);
    OthersSeen(d, u, e, add, emoji, user, v);
  }

  lemma GoodSnoc(s: Log, serial: nat, e: CommentEvent, add: bool)
    requires GoodLog(s, serial) && Stamped(s)
    requires e.kind == (if add then ReactionAdded else ReactionRemoved)
    requires e.eid == ReactionEid(add, Key(e.emoji, e.user))
    ensures GoodLog(s + [e], serial) && Stamped(s + [e])
  {
  }

  lemma OthersSeen(d: Log, u: Log, e: CommentEvent, add: bool, emoji: string, user: string, v: int)
    requires u == Upsert(d, e) && DistinctEids(d) && DistinctEids(u)
    requires e.eid == ReactionEid(add, Key(emoji, user)) && !Own(e, emoji, user)
    requires var q := IndexOfEid(u, ReactionEid(!add, Key(emoji, user)));
      Select(u, ReactionsBy(emoji, user)) == (if q < |u| && Own(u[q], emoji, user) then [u[q]] else [])
      && (q < |u| && Own(u[q], emoji, user) ==> (u[q].kind.ReactionAdded? <==> !add))
    ensures var t := VisibleAt(StableSort(Select(u, ReactionsBy(emoji, user))), v);
      (t != [] && t[|t| - 1].kind.ReactionAdded?) <==> (!add && OwnAddSeen(d, emoji, user, v))
  {
    hide Select, StableSort, VisibleAt, DistinctEids, Upsert, Key;
    var q := IndexOfEid(u, ReactionEid(!add, Key(emoji, user)));
    SameEntry(d, u, e, !add, emoji, user);
    NothingSeen(v);
    if q < |u| { SeenOfOneOrNone(u[q], v); }
  }

  /** All that is left of the other membership is its own entry under the opposite id. */
  lemma OthersEntry(u: Log, serial: nat, e: CommentEvent, add: bool, emoji: string, user: string)
    requires GoodLog(u, serial) && Stamped(u) && DistinctEids(u)
    requires e.eid == ReactionEid(add, Key(emoji, user)) && !Own(e, emoji, user)
    requires var p := IndexOfEid(u, e.eid); p < |u| && u[p] == e
    ensures var q := IndexOfEid(u, ReactionEid(!add, Key(emoji, user)));
      Select(u, ReactionsBy(emoji, user)) == (if q < |u| && Own(u[q], emoji, user) then [u[q]] else [])
      && (q < |u| && Own(u[q], emoji, user) ==> (u[q].kind.ReactionAdded? <==> !add))
  {
    hide Select, DistinctEids, Key, Picks, GoodLog, Stamped;
    var pick := ReactionsBy(emoji, user);
    var p, q := IndexOfEid(u, e.eid), IndexOfEid(u, ReactionEid(!add, Key(emoji, user)));
    forall k | 0 <= k < |u| ensures Picks(pick, u[k]) <==> k == q && Own(u[k], emoji, user) {
      PickedByEid(u, serial, emoji, user, add, k);
      if u[k].eid == e.eid { OneIndex(u, e.eid, k); }
      if u[k].eid == ReactionEid(!add, Key(emoji, user)) { OneIndex(u, u[k].eid, k); }
    }
    if q < |u| && Own(u[q], emoji, user) {
      PickedByEid(u, serial, emoji, user, add, q);
      SelectOne(u, pick, q);
    } else {
      SelectNone(u, pick);
    }
  }

  /** The entry under another id than e's is the one that was there. */
  lemma SameEntry(d: Log, u: Log, e: CommentEvent, add: bool, emoji: string, user: string)
    requires u == Upsert(d, e) && DistinctEids(d) && DistinctEids(u) && e.eid == ReactionEid(!add, Key(emoji, user))
    ensures var q := IndexOfEid(u, ReactionEid(add, Key(emoji, user)));
      forall k :: 0 <= k < |d| && d[k].eid == ReactionEid(add, Key(emoji, user)) ==> q < |u| && u[q] == d[k]
    ensures var q := IndexOfEid(u, ReactionEid(add, Key(emoji, user)));
      q < |u| ==> q < |d| && d[q] == u[q]
  {
    hide DistinctEids, Key;
    var i, eid := IndexOfEid(d, e.eid), ReactionEid(add, Key(emoji, user));
    var q := IndexOfEid(u, eid);
    assert u[i] == e;
    assert forall k :: 0 <= k < |u| && k != i ==> k < |d| && u[k] == d[k];
    forall k | 0 <= k < |d| && d[k].eid == eid ensures q < |u| && u[q] == d[k] {
      assert k != i && u[k] == d[k];
      OneIndex(u, eid, k);
    }
  }

  lemma SeenOfOneOrNone(x: CommentEvent, v: int)
    ensures VisibleAt(StableSort([x]), v) == if Visible(x, v) then [x] else []
  {
    assert StableSort([]) == [] && [x][..0] == [];
    assert StableSort([x]) == [x];
  }

  lemma NothingSeen(v: int)
    ensures VisibleAt(StableSort([]), v) == []
  {
  }

  predicate ReactedAt(c: Comment, op: CommentOp)
    requires op.ReactOp? && Snapshot(c, op.version).Some?
  {
    Reacted(Snapshot(c, op.version).value.reactions, op.emoji, op.user)
  }

  /** The comment after a react on it: one reaction event more. The id is computed, so no serial is used. */
  function ReactParent(c: Comment, op: CommentOp, at: string): (d: Comment)
    requires op.ReactOp? && Snapshot(c, op.version).Some?
    ensures Snapshot(d, op.version).Some?
  {
    c.(events := Some(Events(c) + [Stamp(ReactEvent("", ReactedAt(c, op), op, at), 0)]))
  }

  /** What a react needs: a nameable membership, at a real version, in a migrated log. */
  ghost predicate Reactable(c: Comment, serial: nat, op: CommentOp) {
    && op.ReactOp? && op.emoji != "" && op.user != "" && IsFiniteVersion(op.version)
    && GoodLog(Events(c), serial) && Stamped(Events(c))
    && Snapshot(c, op.version).Some?
  }

  /** Whether the react takes effect: nothing pins the membership, and no earlier entry under its id
      has the opposite reaction at the same version behind it. */
  ghost predicate TakesEffect(c: Comment, serial: nat, op: CommentOp)
    requires Reactable(c, serial, op)
  {
    && !Pinned(Replay(c, Events(c), op.version).verdict, op.emoji, op.user)
    && !Overtaken(Dedup(Events(c)), !ReactedAt(c, op), op.emoji, op.user, op.version)
  }

  lemma ReactableSnoc(s: Log, serial: nat, e: CommentEvent)
    requires GoodLog(s, serial) && Stamped(s)
    requires GoodEid(e, serial) && !e.eid.NoEid?
    ensures GoodLog(s + [e], serial) && Stamped(s + [e])
  {
  }

  lemma ReactParentReactable(c: Comment, serial: nat, op: CommentOp, at: string)
    requires Reactable(c, serial, op)
    ensures Reactable(ReactParent(c, op, at), serial, op)
  {
    ReactableSnoc(Events(c), serial, Stamp(ReactEvent("", ReactedAt(c, op), op, at), 0));
  }

  lemma ShownMembership(c: Comment, op: CommentOp)
    requires op.ReactOp? && op.emoji != "" && IsFiniteVersion(op.version) && Snapshot(c, op.version).Some?
    ensures var st := Replay(c, Events(c), op.version);
      ReactedAt(c, op) <==> Reacted(st.snap.reactions, op.emoji, op.user) || Pinned(st.verdict, op.emoji, op.user)
  {
    FoldKeeps(EmptyView(c), VisibleAt(Ordered(Events(c)), op.version));
    FinalMembership(Replay(c, Events(c), op.version), op.emoji, op.user);
  }

  lemma ReactParentFlips(c: Comment, serial: nat, op: CommentOp, at: string)
    requires Reactable(c, serial, op)
    ensures ReactedAt(ReactParent(c, op, at), op) == !ReactedAt(c, op) <==> TakesEffect(c, serial, op)
  {
    var s, had := Events(c), ReactedAt(c, op);
    var e := Stamp(ReactEvent("", had, op, at), 0);
    ParentReactMembership(c, s, serial, e, !had);
    ReactionKeepsVerdict(c, s, serial, e, op.version);
    ShownMembership(c, op);
    ShownMembership(ReactParent(c, op, at), op);
  }

  /** Exactly when a react on a parent does what it says: it turns its membership over if and only if
      it takes effect; either way it changes no other comment. */
  lemma ParentReactFlipsExactly(b: Book, op: CommentOp, at: string)
    requires GoodBook(b) && op.ReactOp? && FindHost(b.list, op.id).CommentHost?
    requires Reactable(b.list[FindHost(b.list, op.id).index], b.serial, op)
    ensures var h := FindHost(b.list, op.id).index;
      var r := React(b, op, at).0;
      && r.list == b.list[h := r.list[h]] && Snapshot(r.list[h], op.version).Some?
      && (ReactedAt(r.list[h], op) == !ReactedAt(b.list[h], op) <==> TakesEffect(b.list[h], b.serial, op))
  {
    var h := FindHost(b.list, op.id).index;
    ReactParentFlips(b.list[h], b.serial, op, at);
    assert React(b, op, at).0.list[h] == ReactParent(b.list[h], op, at);
  }

  ghost predicate UnusedKey(s: Log, key: string) {
    !HasEid(s, ReactionEid(true, key)) && !HasEid(s, ReactionEid(false, key))
  }

  lemma UnusedKeyUnreacted(c: Comment, s: Log, serial: nat, emoji: string, user: string, v: int)
    requires GoodLog(s, serial) && Stamped(s) && UnusedKey(s, Key(emoji, user)) && emoji != "" && user != ""
    ensures !Reacted(Replay(c, s, v).snap.reactions, emoji, user)
    ensures UnusedKey(Dedup(s), Key(emoji, user))
  {
    var d := Dedup(s);
    DedupGood(s, serial);
    DedupDistinct(s);
    DedupEids(s, ReactionEid(true, Key(emoji, user)));
    DedupEids(s, ReactionEid(false, Key(emoji, user)));
    forall i | 0 <= i < |d| ensures !Picks(ReactionsBy(emoji, user), d[i]) {
      assert GoodEid(d[i], serial) && !d[i].eid.NoEid?;
    }
    SelectNone(d, ReactionsBy(emoji, user));
    SelectSeen(d, v, ReactionsBy(emoji, user));
    LastReactionDecides(EmptyView(c), VisibleAt(Ordered(s), v), emoji, user);
  }

  lemma FirstReact(c: Comment, serial: nat, op: CommentOp, at: string) returns (e: CommentEvent)
    requires Reactable(c, serial, op) && op.user != AGENT && UnusedKey(Events(c), Key(op.emoji, op.user))
    ensures Reactable(ReactParent(c, op, at), serial, op) && ReactedAt(ReactParent(c, op, at), op)
    ensures e.eid == ReactionEid(true, Key(op.emoji, op.user))
    ensures Events(ReactParent(c, op, at)) == Events(c) + [e] && Dedup(Events(c) + [e]) == Dedup(Events(c)) + [e]
  {
    var s := Events(c);
    UnusedKeyUnreacted(c, s, serial, op.emoji, op.user, op.version);
    ShownMembership(c, op);
    ReactParentReactable(c, serial, op, at);
    ReactParentFlips(c, serial, op, at);
    e := Stamp(ReactEvent("", false, op, at), 0);
    AppendNewEid(s, e);
    assert Events(ReactParent(c, op, at)) == s + [e];
  }

  lemma SecondReact(c: Comment, serial: nat, op: CommentOp, at: string, d: Log, e: CommentEvent)
    requires Reactable(c, serial, op) && op.user != AGENT && ReactedAt(c, op)
    requires UnusedKey(d, Key(op.emoji, op.user)) && e.eid == ReactionEid(true, Key(op.emoji, op.user))
    requires Dedup(Events(c)) == d + [e]
    ensures var c' := ReactParent(c, op, at);
      && Reactable(c', serial, op) && !ReactedAt(c', op)
      && Overtaken(Dedup(Events(c')), true, op.emoji, op.user, op.version)
  {
    var s := Events(c);
    OnlyAdded(d, e, op.emoji, op.user, op.version);
    ReactParentReactable(c, serial, op, at);
    ReactParentFlips(c, serial, op, at);
    var e' := Stamp(ReactEvent("", true, op, at), 0);
    HasEidSnoc(d, e, e'.eid);
    DedupEids(s, e'.eid);
    AppendNewEid(s, e');
    AddedThenRemoved(d, e, e');
  }

  /** The toggle works twice and then sticks: on a membership never used before, three reacts in a row
      at one version read reacted, not reacted, and again not reacted. */
  lemma ThirdReactIsLost(c: Comment, serial: nat, op: CommentOp, at: string)
    requires Reactable(c, serial, op) && op.user != AGENT && UnusedKey(Events(c), Key(op.emoji, op.user))
    ensures var c1 := ReactParent(c, op, at);
      var c2 := ReactParent(c1, op, at);
      var c3 := ReactParent(c2, op, at);
      ReactedAt(c1, op) && !ReactedAt(c2, op) && !ReactedAt(c3, op)
  {
    var e := FirstReact(c, serial, op, at);
    var c1 := ReactParent(c, op, at);
    UnusedKeyUnreacted(c, Events(c), serial, op.emoji, op.user, op.version);
    SecondReact(c1, serial, op, at, Dedup(Events(c)), e);
    var c2 := ReactParent(c1, op, at);
    ReactParentFlips(c2, serial, op, at);
  }

  lemma OnlyAdded(d: Log, e: CommentEvent, emoji: string, user: string, v: int)
    requires UnusedKey(d, Key(emoji, user)) && e.eid == ReactionEid(true, Key(emoji, user))
    ensures !Overtaken(d + [e], false, emoji, user, v)
  {
    var u := d + [e];
    assert forall i :: 0 <= i < |d| ==> u[i] == d[i];
  }

  lemma AddedThenRemoved(d: Log, e1: CommentEvent, e2: CommentEvent)
    requires e1.eid == ReactionEid(true, Key(e2.emoji, e2.user)) && e2.eid == ReactionEid(false, Key(e2.emoji, e2.user))
    ensures Overtaken(d + [e1] + [e2], true, e2.emoji, e2.user, e2.atVersion)
  {
    var u := d + [e1] + [e2];
    assert u[|d|] == e1 && u[|d| + 1] == e2;
  }
}
