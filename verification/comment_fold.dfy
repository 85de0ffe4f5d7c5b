/** Folding an ordered log into a snapshot: one step per event, and the invariants every step keeps. */
module CommentFold {
  import opened CommentTypes
  import opened EventLog

  const AGENT := "odoc-agent"

  /** The emoji a verdict shows on the parent; an unknown verdict shows none. */
  function VerdictEmoji(verdict: string): string {
    if verdict == "applied" then "\U{2705}"
    else if verdict == "partial" then "\U{1F7E1}"
    else if verdict == "question" then "\U{2753}"
    else ""
  }

  // ---------------------------------------------------------------- reactions

  function Users(r: Reactions, emoji: string): seq<string> {
    if emoji in r then r[emoji] else []
  }

  predicate Reacted(r: Reactions, emoji: string, user: string) {
    user in Users(r, emoji)
  }

  /** The first position of user, or |users|. */
  function IndexOf(users: seq<string>, user: string): (i: nat)
    ensures i <= |users|
  {
    if users == [] || users[0] == user then 0 else 1 + IndexOf(users[1..], user)
  }

  lemma {:induction false} IndexOfFirst(users: seq<string>, user: string)
    ensures var i := IndexOf(users, user);
      && (i < |users| ==> users[i] == user)
      && (user in users <==> i < |users|)
      && user !in users[..i]
  {
    if users != [] && users[0] != user {
      IndexOfFirst(users[1..], user);
      var i := IndexOf(users, user);
      assert users[..i] == [users[0]] + users[1..][..i - 1];
      assert users == [users[0]] + users[1..];
    }
  }

  function Toggle(r: Reactions, emoji: string, user: string, add: bool): Reactions {
    var users := Users(r, emoji);
    var i := IndexOf(users, user);
    if add then
      r[emoji := if i == |users| then users + [user] else users]
    else
      var rest := if i < |users| then users[..i] + users[i + 1..] else users;
      if rest != [] then r[emoji := rest] else r - {emoji}
  }

  predicate NoRepeat(s: seq<string>) {
    forall i, j :: 0 <= i < j < |s| ==> s[i] != s[j]
  }

  /** No emoji with an empty list, no user twice under one emoji. */
  predicate Tidy(r: Reactions) {
    forall emoji :: emoji in r ==> r[emoji] != [] && NoRepeat(r[emoji])
  }

  lemma DropFirstHit(s: seq<string>, user: string)
    requires NoRepeat(s) && IndexOf(s, user) < |s|
    ensures var i := IndexOf(s, user); var t := s[..i] + s[i + 1..];
      NoRepeat(t) && forall u :: u in t <==> u in s && u != user
  {
    var i := IndexOf(s, user);
    IndexOfFirst(s, user);
    var t := s[..i] + s[i + 1..];
    forall u ensures u in t <==> u in s && u != user {
      if u in s && u != user {
        var k :| 0 <= k < |s| && s[k] == u;
        assert t[if k < i then k else k - 1] == u;
      }
      if u in t {
        var k :| 0 <= k < |t| && t[k] == u;
        assert s[if k < i then k else k + 1] == u;
      }
    }
  }

  /** A toggle keeps the table tidy and decides exactly its own membership. */
  lemma ToggleExact(r: Reactions, emoji: string, user: string, add: bool)
    requires Tidy(r)
    ensures Tidy(Toggle(r, emoji, user, add))
    ensures forall m, u :: Reacted(Toggle(r, emoji, user, add), m, u) <==>
                           if m == emoji && u == user then add else Reacted(r, m, u)
  {
    var users := Users(r, emoji);
    IndexOfFirst(users, user);
    if !add && user in users {
      DropFirstHit(users, user);
    }
    var t := Toggle(r, emoji, user, add);
    forall m, u ensures Reacted(t, m, u) <==> if m == emoji && u == user then add else Reacted(r, m, u) {
      if m != emoji {
        assert Users(t, m) == Users(r, m);
      }
    }
  }

  // ---------------------------------------------------------------- the fold

  /** The state of a fold: the snapshot so far, the replies by id in order, the pending verdict. */
  datatype FoldView = FoldView(
    snap: CommentSnapshot,
    replyOrder: seq<string>,
    replyById: map<string, ReplySnapshot>,
    verdict: Option<string>)

  function EmptySnapshot(c: Comment): CommentSnapshot {
    CommentSnapshot(c.id, c.author, c.created, c.createdIn, c.createdIn,
                    None, "", Open, None, [], map[], false)
  }

  function EmptyView(c: Comment): FoldView {
    FoldView(EmptySnapshot(c), [], map[], None)
  }

  function NewReply(parentId: string, seed: ReplySeed, at: string): ReplySnapshot {
    ReplySnapshot(seed.id, parentId, seed.author, seed.text,
                  if seed.agentStatus == "" then None else Some(seed.agentStatus), at, map[], false)
  }

  /** The effect of one event. */
  function Step(st: FoldView, e: CommentEvent): FoldView {
    var snap := st.snap;
    match e.kind
    case Created => st.(snap := snap.(anchor := e.anchor, text := e.text))
    case TextEdited => st.(snap := snap.(text := e.text))
    case AnchorChanged =>
      if e.resetStatus == Some(true) then st.(snap := snap.(anchor := e.anchor, status := Open, appliedIn := None))
      else st.(snap := snap.(anchor := e.anchor))
    case MarkedApplied =>
      st.(snap := snap.(status := Applied, appliedIn := if e.appliedIn.Some? then e.appliedIn else Some(e.atVersion)),
          verdict := Some(if e.agentStatus != "" then e.agentStatus else "applied"))
    case MarkedOpen =>
      st.(snap := snap.(status := Open, appliedIn := None),
          verdict := if e.agentStatus != "" then Some(e.agentStatus) else None)
    case Deleted => st.(snap := snap.(deleted := true))
    case ReactionAdded =>
      if e.emoji == "" || e.user == "" then st
      else st.(snap := snap.(reactions := Toggle(snap.reactions, e.emoji, e.user, true)))
    case ReactionRemoved =>
      if e.emoji == "" || e.user == "" then st
      else st.(snap := snap.(reactions := Toggle(snap.reactions, e.emoji, e.user, false)))
    case ReplyAdded =>
      if e.reply.None? || e.reply.value.id == "" then st
      else
        var id := e.reply.value.id;
        st.(replyOrder := st.replyOrder + [id], replyById := st.replyById[id := NewReply(snap.id, e.reply.value, e.at)])
    case OtherKind(_) => st
    case _ =>
      if e.replyId !in st.replyById then st
      else st.(replyById := st.replyById[e.replyId := StepReply(st.replyById[e.replyId], e)])
  }

  /** The effect of one event on the reply it names. */
  function StepReply(r: ReplySnapshot, e: CommentEvent): ReplySnapshot {
    match e.kind
    case ReplyTextEdited => r.(text := e.text)
    case ReplyDeleted => r.(deleted := true)
    case ReplyReactionAdded =>
      if e.emoji == "" || e.user == "" then r else r.(reactions := Toggle(r.reactions, e.emoji, e.user, true))
    case ReplyReactionRemoved =>
      if e.emoji == "" || e.user == "" then r else r.(reactions := Toggle(r.reactions, e.emoji, e.user, false))
    case _ => r
  }

  function FoldEvents(st: FoldView, s: Log): FoldView {
    if s == [] then st else Step(FoldEvents(st, s[..|s| - 1]), s[|s| - 1])
  }

  lemma {:induction false} FoldAppend(st: FoldView, s: Log, t: Log)
    ensures FoldEvents(st, s + t) == FoldEvents(FoldEvents(st, s), t)
  {
    if t == [] {
      assert s + t == s;
    } else {
      assert (s + t)[..|s + t| - 1] == s + t[..|t| - 1];
      FoldAppend(st, s, t[..|t| - 1]);
    }
  }

  /** The fold of a log as of version at, before the verdict emoji and the reply list are put in. */
  function Replay(c: Comment, s: Log, at: int): FoldView {
    FoldEvents(EmptyView(c), VisibleAt(Ordered(s), at))
  }

  function LiveReplies(order: seq<string>, byId: map<string, ReplySnapshot>): seq<ReplySnapshot> {
    if order == [] then []
    else
      var id := order[|order| - 1];
      LiveReplies(order[..|order| - 1], byId) + (if id in byId && !byId[id].deleted then [byId[id]] else [])
  }

  function Finalize(st: FoldView): CommentSnapshot {
    var emoji := if st.verdict.Some? then VerdictEmoji(st.verdict.value) else "";
    var reactions := if emoji != "" then Toggle(st.snap.reactions, emoji, AGENT, true) else st.snap.reactions;
    st.snap.(reactions := reactions, replies := LiveReplies(st.replyOrder, st.replyById))
  }

  function ReadAt(v: int): int {
    if IsFiniteVersion(v) then v else VERSION_LATEST
  }

  /** The snapshot of a log as of version v; None if the comment did not exist then. */
  function SnapshotOf(c: Comment, s: Log, v: int): Option<CommentSnapshot> {
    if s == [] || c.createdIn > ReadAt(v) then None else Some(Finalize(Replay(c, s, ReadAt(v))))
  }

  // ---------------------------------------------------------------- what every step keeps

  ghost predicate ViewInv(st: FoldView) {
    && (st.snap.status.Applied? <==> st.snap.appliedIn.Some?)
    && Tidy(st.snap.reactions)
    && RepliesInv(st.replyOrder, st.replyById)
  }

  ghost predicate RepliesInv(order: seq<string>, byId: map<string, ReplySnapshot>) {
    && (forall id :: id in byId ==> byId[id].id == id && Tidy(byId[id].reactions))
    && (forall id :: id in byId <==> id in order)
  }

  lemma StepReplyKeeps(r: ReplySnapshot, e: CommentEvent)
    requires Tidy(r.reactions)
    ensures StepReply(r, e).id == r.id && Tidy(StepReply(r, e).reactions)
  {
    ToggleExact(r.reactions, e.emoji, e.user, true);
    ToggleExact(r.reactions, e.emoji, e.user, false);
  }

  lemma StepKeepsParent(st: FoldView, e: CommentEvent)
    requires st.snap.status.Applied? <==> st.snap.appliedIn.Some?
    requires Tidy(st.snap.reactions)
    ensures var t := Step(st, e).snap; Tidy(t.reactions) && (t.status.Applied? <==> t.appliedIn.Some?)
  {
    hide StepReply, Toggle;
    ToggleExact(st.snap.reactions, e.emoji, e.user, true);
    ToggleExact(st.snap.reactions, e.emoji, e.user, false);
  }

  lemma StepKeepsReplies(st: FoldView, e: CommentEvent)
    requires RepliesInv(st.replyOrder, st.replyById)
    ensures RepliesInv(Step(st, e).replyOrder, Step(st, e).replyById)
  {
    if e.kind.ReplyAdded? {
      if e.reply.Some? {
        var id := e.reply.value.id;
        assert id in st.replyOrder + [id];
      }
    } else if e.replyId in st.replyById {
      StepReplyKeeps(st.replyById[e.replyId], e);
    }
  }

  lemma StepKeeps(st: FoldView, e: CommentEvent)
    requires ViewInv(st)
    ensures ViewInv(Step(st, e))
  {
    StepKeepsParent(st, e);
    StepKeepsReplies(st, e);
  }

  lemma {:induction false} FoldKeeps(st: FoldView, s: Log)
    requires ViewInv(st)
    ensures ViewInv(FoldEvents(st, s))
  {
    if s != [] {
      FoldKeeps(st, s[..|s| - 1]);
      StepKeeps(FoldEvents(st, s[..|s| - 1]), s[|s| - 1]);
    }
  }

  predicate TidySnapshot(snap: CommentSnapshot) {
    && (snap.status.Applied? <==> snap.appliedIn.Some?)
    && Tidy(snap.reactions)
    && forall i :: 0 <= i < |snap.replies| ==> Tidy(snap.replies[i].reactions) && !snap.replies[i].deleted
  }

  lemma {:induction false} LiveRepliesFrom(order: seq<string>, byId: map<string, ReplySnapshot>)
    ensures forall r :: r in LiveReplies(order, byId) <==>
                        exists id :: id in order && id in byId && byId[id] == r && !r.deleted
  {
    if order != [] {
      var rest, last := order[..|order| - 1], order[|order| - 1];
      LiveRepliesFrom(rest, byId);
      assert forall id :: id in order <==> id in rest || id == last;
    }
  }

  /** Every snapshot of every log is tidy: applied exactly when applied_in is set, no user twice under
      an emoji, no emoji without users, no deleted reply listed. */
  lemma SnapshotTidy(c: Comment, s: Log, v: int)
    ensures SnapshotOf(c, s, v).Some? ==> TidySnapshot(SnapshotOf(c, s, v).value)
  {
    if SnapshotOf(c, s, v).Some? {
      FoldKeeps(EmptyView(c), VisibleAt(Ordered(s), ReadAt(v)));
      var st := Replay(c, s, ReadAt(v));
      if st.verdict.Some? {
        ToggleExact(st.snap.reactions, VerdictEmoji(st.verdict.value), AGENT, true);
      }
      LiveRepliesFrom(st.replyOrder, st.replyById);
    }
  }

  // ---------------------------------------------------------------- laws of snapshots

  lemma AppendAtOwnVersion(c: Comment, s: Log, e: CommentEvent)
    requires (e.eid.NoEid? || !HasEid(s, e.eid)) && IsFiniteVersion(e.atVersion)
    ensures Replay(c, s + [e], e.atVersion) == Step(Replay(c, s, e.atVersion), e)
  {
    var base := VisibleAt(Ordered(s), e.atVersion);
    AppendOrder(s, e, e.atVersion);
    assert VisibleAt(Ordered(s + [e]), e.atVersion) == base + [e];
    FoldSnoc(EmptyView(c), base, e);
  }

  lemma LaterVersions(c: Comment, s: Log, v: int, w: int)
    requires v <= w
    ensures Replay(c, s, w) == FoldEvents(Replay(c, s, v), LateAt(Ordered(s), v, w))
  {
    StableSortSorted(Dedup(s));
    LateAtSplit(Ordered(s), v, w);
    FoldAppend(EmptyView(c), VisibleAt(Ordered(s), v), LateAt(Ordered(s), v, w));
  }

  lemma AppendBeforeLater(c: Comment, s: Log, e: CommentEvent, w: int)
    requires (e.eid.NoEid? || !HasEid(s, e.eid)) && IsFiniteVersion(e.atVersion) && e.atVersion <= w
    ensures Replay(c, s + [e], w) ==
      FoldEvents(FoldEvents(EmptyView(c), VisibleAt(Ordered(s), e.atVersion) + [e]), LateAt(Ordered(s), e.atVersion, w))
  {
    var base, late := VisibleAt(Ordered(s), e.atVersion), LateAt(Ordered(s), e.atVersion, w);
    AppendOrder(s, e, w);
    assert base + ([e] + late) == (base + [e]) + late;
    FoldAppend(EmptyView(c), base + [e], late);
  }

  /** The append law. A new id at version v: snapshots of earlier versions stay, the replay at v takes
      exactly one more step, the replay at a later w takes that step before the later events. */
  lemma AppendLaw(c: Comment, s: Log, e: CommentEvent, w: int)
    requires e.eid.NoEid? || !HasEid(s, e.eid)
    requires IsFiniteVersion(e.atVersion)
    ensures w < e.atVersion ==> Replay(c, s + [e], w) == Replay(c, s, w)
    ensures Replay(c, s + [e], e.atVersion) == Step(Replay(c, s, e.atVersion), e)
    ensures w >= e.atVersion ==>
      Replay(c, s, w) == FoldEvents(Replay(c, s, e.atVersion), LateAt(Ordered(s), e.atVersion, w))
    ensures w >= e.atVersion ==>
      Replay(c, s + [e], w) == FoldEvents(Step(Replay(c, s, e.atVersion), e), LateAt(Ordered(s), e.atVersion, w))
  {
    if w < e.atVersion {
      AppendOrder(s, e, w);
    } else {
      LaterVersions(c, s, e.atVersion, w);
      AppendBeforeLater(c, s, e, w);
      FoldSnoc(EmptyView(c), VisibleAt(Ordered(s), e.atVersion), e);
    }
    AppendAtOwnVersion(c, s, e);
  }

  lemma FoldSnoc(st: FoldView, s: Log, e: CommentEvent)
    ensures FoldEvents(st, s + [e]) == Step(FoldEvents(st, s), e)
  {
    assert (s + [e])[..|s|] == s;
  }

  /** Only each version's own subsequence of the collapsed log matters to any snapshot. */
  lemma CanonicalForm(c: Comment, s: Log, t: Log, v: int)
    requires forall n :: AtOnly(Dedup(s), n) == AtOnly(Dedup(t), n)
    ensures SnapshotOf(c, s, v) == SnapshotOf(c, t, v)
  {
    CanonicalOrder(s, t);
    DedupEmpty(s);
    DedupEmpty(t);
    if s != [] {
      SameVersionsSameEmpty(Dedup(s), Dedup(t));
    }
    if t != [] {
      SameVersionsSameEmpty(Dedup(t), Dedup(s));
    }
  }

  function Edit(text: string, at: string, serial: nat): CommentEvent {
    BlankEvent(TextEdited, 1, at).(text := text, eid := OneShotEid(serial))
  }

  lemma FoldTwoEdits(c: Comment, x: CommentEvent, y: CommentEvent)
    requires x.kind.TextEdited? && y.kind.TextEdited? && x.eid != y.eid && x.atVersion == 1 && y.atVersion == 1
    requires c.createdIn <= 1
    ensures SnapshotOf(c, [x, y], 1).Some? && SnapshotOf(c, [x, y], 1).value.text == y.text
  {
    hide Replay, HasEid, StepReply, Dedup;
    OtherEid(x, y.eid);
    AppendLaw(c, [x], y, 1);
    assert [x] + [y] == [x, y];
    LastEditReads(Replay(c, [x], 1), y);
  }

  lemma LastEditReads(st: FoldView, y: CommentEvent)
    requires y.kind.TextEdited?
    ensures Finalize(Step(st, y)).text == y.text
  {
    hide StepReply, Toggle;
  }

  lemma OtherEid(x: CommentEvent, eid: Eid)
    requires x.eid != eid
    ensures !HasEid([x], eid)
  {
  }

  /** Within one version the order of writing does decide: two edits made at the same version read
      differently when the log has them the other way round. */
  lemma WriteOrderMatters(c: Comment, at: string, n: nat)
    requires c.createdIn <= 1
    ensures var x, y := Edit("a", at, n), Edit("b", at, n + 1);
      SnapshotOf(c, [x, y], 1) != SnapshotOf(c, [y, x], 1)
  {
    var x, y := Edit("a", at, n), Edit("b", at, n + 1);
    FoldTwoEdits(c, x, y);
    FoldTwoEdits(c, y, x);
  }

  lemma SameVersionsSameEmpty(a: Log, b: Log)
    requires a != [] && forall n :: AtOnly(a, n) == AtOnly(b, n)
    ensures b != []
  {
    var n := a[|a| - 1].atVersion;
    AtOnlyLast(a, n);
    assert AtOnly(b, n) != [];
  }

  lemma DedupEmpty(s: Log)
    ensures Dedup(s) == [] <==> s == []
  {
  }

  /** Compaction changes no snapshot at any version. */
  lemma CompactionKeepsSnapshots(c: Comment, s: Log, v: int)
    ensures SnapshotOf(c, Dedup(s), v) == SnapshotOf(c, s, v)
  {
    DedupIdempotent(s);
    DedupEmpty(s);
  }
}
