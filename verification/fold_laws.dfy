/** What a snapshot reads, part by part: the last event a reader sees that writes the part decides it. */
module FoldLaws {
  import opened CommentTypes
  import opened EventLog
  import opened CommentFold

  /** What a reader of version v sees, in reading order. */
  function Seen(s: Log, v: int): Log {
    VisibleAt(Ordered(s), ReadAt(v))
  }

  /** The parts of a snapshot that events write. */
  datatype Part =
    | TextPart
    | AnchorPart
    | StatusPart
    | VerdictPart
    | Membership(emoji: string, user: string)
    | ReplyIs(id: string)
    | ReplyText(id: string)
    | ReplyGone(id: string)
    | ReplyMembership(id: string, emoji: string, user: string)

  /** The event adds a reply with this id. */
  predicate Adds(e: CommentEvent, id: string) {
    id != "" && e.kind.ReplyAdded? && e.reply.Some? && e.reply.value.id == id
  }

  predicate Writes(p: Part, e: CommentEvent) {
    match p
    case TextPart => e.kind.Created? || e.kind.TextEdited?
    case AnchorPart => e.kind.Created? || e.kind.AnchorChanged?
    case StatusPart =>
      e.kind.MarkedApplied? || e.kind.MarkedOpen? || (e.kind.AnchorChanged? && e.resetStatus == Some(true))
    case VerdictPart => e.kind.MarkedApplied? || e.kind.MarkedOpen?
    case Membership(m, u) => (e.kind.ReactionAdded? || e.kind.ReactionRemoved?) && e.emoji == m && e.user == u
    case ReplyIs(id) => Adds(e, id)
    case ReplyText(id) => Adds(e, id) || (e.kind.ReplyTextEdited? && e.replyId == id)
    case ReplyGone(id) => Adds(e, id) || (e.kind.ReplyDeleted? && e.replyId == id)
    case ReplyMembership(id, m, u) =>
      Adds(e, id) || ((e.kind.ReplyReactionAdded? || e.kind.ReplyReactionRemoved?)
                      && e.replyId == id && e.emoji == m && e.user == u)
  }

  /** The last event of the list that writes the part, if any does. */
  predicate IsLast(t: Log, p: Part, k: nat) {
    k < |t| && Writes(p, t[k]) && forall j :: k < j < |t| ==> !Writes(p, t[j])
  }

  predicate Unwritten(t: Log, p: Part) {
    forall j :: 0 <= j < |t| ==> !Writes(p, t[j])
  }

  lemma LastSnoc(f: Log, e: CommentEvent, p: Part)
    ensures Unwritten(f + [e], p) <==> Unwritten(f, p) && !Writes(p, e)
    ensures forall k: nat :: IsLast(f + [e], p, k) <==> if Writes(p, e) then k == |f| else IsLast(f, p, k)
  {
    hide Writes;
    var t := f + [e];
    assert t[|f|] == e && forall j :: 0 <= j < |f| ==> t[j] == f[j];
    if Unwritten(t, p) {
      assert forall j :: 0 <= j < |f| ==> !Writes(p, t[j]);
    }
    forall k: nat ensures IsLast(t, p, k) <==> if Writes(p, e) then k == |f| else IsLast(f, p, k) {
      if IsLast(t, p, k) && k < |f| {
        assert !Writes(p, t[|f|]);
        assert forall j :: k < j < |f| ==> !Writes(p, t[j]);
      }
    }
  }

  /** The events before k write no reply with this id. */
  predicate AddedIn(t: Log, id: string) {
    exists k :: 0 <= k < |t| && Adds(t[k], id)
  }

  lemma AddedSnoc(f: Log, e: CommentEvent, id: string)
    ensures AddedIn(f + [e], id) <==> AddedIn(f, id) || Adds(e, id)
  {
    hide Adds;
    var t := f + [e];
    assert t[|f|] == e && forall j :: 0 <= j < |f| ==> t[j] == f[j];
    if AddedIn(f, id) {
      var k :| 0 <= k < |f| && Adds(f[k], id);
      assert Adds(t[k], id);
    }
  }

  // ---------------------------------------------------------------- what the parts read

  function VerdictOf(e: CommentEvent): Option<string> {
    if e.agentStatus != "" then Some(e.agentStatus) else if e.kind.MarkedApplied? then Some("applied") else None
  }

  /** The parts of the parent in a fold of t. */
  ghost predicate ParentReads(t: Log, st: FoldView) {
    && (forall k: nat :: IsLast(t, TextPart, k) ==> st.snap.text == t[k].text)
    && (Unwritten(t, TextPart) ==> st.snap.text == "")
    && (forall k: nat :: IsLast(t, AnchorPart, k) ==> st.snap.anchor == t[k].anchor)
    && (Unwritten(t, AnchorPart) ==> st.snap.anchor == None)
  }

  ghost predicate StatusReads(t: Log, st: FoldView) {
    && (forall k: nat :: IsLast(t, StatusPart, k) ==>
          if t[k].kind.MarkedApplied? then
            st.snap.status == Applied
            && st.snap.appliedIn == Some(if t[k].appliedIn.Some? then t[k].appliedIn.value else t[k].atVersion)
          else st.snap.status == Open && st.snap.appliedIn == None)
    && (Unwritten(t, StatusPart) ==> st.snap.status == Open && st.snap.appliedIn == None)
    && (forall k: nat :: IsLast(t, VerdictPart, k) ==> st.verdict == VerdictOf(t[k]))
    && (Unwritten(t, VerdictPart) ==> st.verdict == None)
  }

  ghost predicate MembershipReads(t: Log, st: FoldView, m: string, u: string) {
    && Tidy(st.snap.reactions)
    && (forall k: nat :: IsLast(t, Membership(m, u), k) ==>
          (Reacted(st.snap.reactions, m, u) <==> m != "" && u != "" && t[k].kind.ReactionAdded?))
    && (m == "" || u == "" || Unwritten(t, Membership(m, u)) ==> !Reacted(st.snap.reactions, m, u))
  }

  lemma StepParent(f: Log, st: FoldView, e: CommentEvent)
    requires ParentReads(f, st)
    ensures ParentReads(f + [e], Step(st, e))
  {
    hide IsLast, Unwritten, StepReply, Toggle, NewReply;
    LastSnoc(f, e, TextPart);
    LastSnoc(f, e, AnchorPart);
    assert (f + [e])[|f|] == e;
    forall k: nat, p | IsLast(f, p, k) ensures k < |f| && (f + [e])[k] == f[k] {
      LastInside(f, p, k);
    }
  }

  lemma LastInside(t: Log, p: Part, k: nat)
    requires IsLast(t, p, k)
    ensures k < |t| && Writes(p, t[k])
  {
  }

  lemma StepStatus(f: Log, st: FoldView, e: CommentEvent)
    requires StatusReads(f, st)
    ensures StatusReads(f + [e], Step(st, e))
  {
    hide IsLast, Unwritten, StepReply, Toggle, NewReply;
    LastSnoc(f, e, StatusPart);
    LastSnoc(f, e, VerdictPart);
    assert (f + [e])[|f|] == e;
    forall k: nat, p | IsLast(f, p, k) ensures k < |f| && (f + [e])[k] == f[k] {
      LastInside(f, p, k);
    }
  }

  lemma StepMembership(f: Log, st: FoldView, e: CommentEvent, m: string, u: string)
    requires MembershipReads(f, st, m, u)
    ensures MembershipReads(f + [e], Step(st, e), m, u)
  {
    hide IsLast, Unwritten, StepReply, Toggle, NewReply, Tidy, Reacted;
    LastSnoc(f, e, Membership(m, u));
    assert (f + [e])[|f|] == e;
    forall k: nat | IsLast(f, Membership(m, u), k) ensures k < |f| && (f + [e])[k] == f[k] {
      LastInside(f, Membership(m, u), k);
    }
    ToggleExact(st.snap.reactions, e.emoji, e.user, true);
    ToggleExact(st.snap.reactions, e.emoji, e.user, false);
  }

  lemma {:induction false} ParentFold(c: Comment, t: Log, m: string, u: string)
    ensures ParentReads(t, FoldEvents(EmptyView(c), t)) && StatusReads(t, FoldEvents(EmptyView(c), t))
    ensures MembershipReads(t, FoldEvents(EmptyView(c), t), m, u)
  {
    hide Step, ParentReads, StatusReads, MembershipReads;
    if t == [] {
      NothingRead(c, m, u);
    } else {
      var f, e := t[..|t| - 1], t[|t| - 1];
      assert t == f + [e];
      ParentFold(c, f, m, u);
      StepParent(f, FoldEvents(EmptyView(c), f), e);
      StepStatus(f, FoldEvents(EmptyView(c), f), e);
      StepMembership(f, FoldEvents(EmptyView(c), f), e, m, u);
    }
  }

  lemma NothingRead(c: Comment, m: string, u: string)
    ensures ParentReads([], EmptyView(c)) && StatusReads([], EmptyView(c)) && MembershipReads([], EmptyView(c), m, u)
  {
  }

  // ---------------------------------------------------------------- replies

  function AddedIds(t: Log): seq<string> {
    if t == [] then []
    else
      var e := t[|t| - 1];
      if e.kind.ReplyAdded? && e.reply.Some? && e.reply.value.id != "" then AddedIds(t[..|t| - 1]) + [e.reply.value.id]
      else AddedIds(t[..|t| - 1])
  }

  ghost predicate OrderReads(t: Log, st: FoldView) {
    && st.replyOrder == AddedIds(t)
    && forall id :: id in st.replyById <==> AddedIn(t, id)
  }

  /** What the last event that added the reply fixes. */
  ghost predicate ReplyFixed(t: Log, st: FoldView, id: string) {
    forall k: nat :: IsLast(t, ReplyIs(id), k) ==>
      && id in st.replyById && t[k].reply.Some?
      && var r := st.replyById[id]; var seed := t[k].reply.value;
      && r.id == id && r.parentId == st.snap.id && r.author == seed.author && r.created == t[k].at
      && r.agentStatus == if seed.agentStatus == "" then None else Some(seed.agentStatus)
  }

  ghost predicate ReplyBody(t: Log, st: FoldView, id: string) {
    id in st.replyById ==>
      && (forall k: nat :: IsLast(t, ReplyText(id), k) ==>
            st.replyById[id].text ==
              if t[k].kind.ReplyAdded? && t[k].reply.Some? then t[k].reply.value.text else t[k].text)
      && (forall k: nat :: IsLast(t, ReplyGone(id), k) ==> (st.replyById[id].deleted <==> t[k].kind.ReplyDeleted?))
  }

  ghost predicate ReplyMembers(t: Log, st: FoldView, id: string, m: string, u: string) {
    id in st.replyById ==>
      && Tidy(st.replyById[id].reactions)
      && (m == "" || u == "" ==> !Reacted(st.replyById[id].reactions, m, u))
      && (forall k: nat :: IsLast(t, ReplyMembership(id, m, u), k) ==>
            (Reacted(st.replyById[id].reactions, m, u) <==> m != "" && u != "" && t[k].kind.ReplyReactionAdded?))
  }

  lemma StepOrder(f: Log, st: FoldView, e: CommentEvent)
    requires OrderReads(f, st)
    ensures OrderReads(f + [e], Step(st, e))
  {
    hide StepReply, Toggle, NewReply, AddedIn;
    assert (f + [e])[..|f|] == f;
    forall id ensures id in Step(st, e).replyById <==> AddedIn(f + [e], id) {
      AddedSnoc(f, e, id);
    }
    forall id ensures AddedIn(f, id) ==> id != "" {
      AddedNamed(f, id);
    }
  }

  lemma AddedNamed(t: Log, id: string)
    ensures AddedIn(t, id) ==> id != ""
  {
  }

  lemma StepFixed(f: Log, st: FoldView, e: CommentEvent, id: string)
    requires ReplyFixed(f, st, id)
    ensures ReplyFixed(f + [e], Step(st, e), id)
  {
    hide IsLast, Unwritten, Toggle;
    LastSnoc(f, e, ReplyIs(id));
    assert (f + [e])[|f|] == e;
    forall k: nat | IsLast(f, ReplyIs(id), k) ensures k < |f| && (f + [e])[k] == f[k] {
      LastInside(f, ReplyIs(id), k);
    }
  }

  lemma StepBody(f: Log, st: FoldView, e: CommentEvent, id: string)
    requires id in st.replyById ==> id != ""
    requires ReplyBody(f, st, id)
    ensures ReplyBody(f + [e], Step(st, e), id)
  {
    hide IsLast, Unwritten, Toggle;
    LastSnoc(f, e, ReplyText(id));
    LastSnoc(f, e, ReplyGone(id));
    assert (f + [e])[|f|] == e;
    forall k: nat, p | IsLast(f, p, k) ensures k < |f| && (f + [e])[k] == f[k] {
      LastInside(f, p, k);
    }
  }

  lemma StepMembers(f: Log, st: FoldView, e: CommentEvent, id: string, m: string, u: string)
    requires ReplyMembers(f, st, id, m, u)
    ensures ReplyMembers(f + [e], Step(st, e), id, m, u)
  {
    hide IsLast, Unwritten, Toggle, Tidy, Reacted;
    LastSnoc(f, e, ReplyMembership(id, m, u));
    assert (f + [e])[|f|] == e;
    forall k: nat, p | IsLast(f, p, k) ensures k < |f| && (f + [e])[k] == f[k] {
      LastInside(f, p, k);
    }
    Untouched(m, u);
    if id in st.replyById {
      ToggleExact(st.replyById[id].reactions, e.emoji, e.user, true);
      ToggleExact(st.replyById[id].reactions, e.emoji, e.user, false);
    }
  }

  lemma Untouched(m: string, u: string)
    ensures Tidy(map[]) && !Reacted(map[], m, u)
  {
  }

  lemma {:induction false} ReplyFold(c: Comment, t: Log, id: string, m: string, u: string)
    ensures OrderReads(t, FoldEvents(EmptyView(c), t)) && ReplyFixed(t, FoldEvents(EmptyView(c), t), id)
    ensures ReplyBody(t, FoldEvents(EmptyView(c), t), id) && ReplyMembers(t, FoldEvents(EmptyView(c), t), id, m, u)
  {
    hide Step, ReplyFixed, ReplyBody, ReplyMembers;
    if t == [] {
      NoReplyRead(c, id, m, u);
    } else {
      var f, e := t[..|t| - 1], t[|t| - 1];
      assert t == f + [e];
      ReplyFold(c, f, id, m, u);
      AddedNamed(f, id);
      StepOrder(f, FoldEvents(EmptyView(c), f), e);
      StepFixed(f, FoldEvents(EmptyView(c), f), e, id);
      StepBody(f, FoldEvents(EmptyView(c), f), e, id);
      StepMembers(f, FoldEvents(EmptyView(c), f), e, id, m, u);
    }
  }

  lemma NoReplyRead(c: Comment, id: string, m: string, u: string)
    ensures OrderReads([], EmptyView(c)) && ReplyFixed([], EmptyView(c), id) && ReplyBody([], EmptyView(c), id)
    ensures ReplyMembers([], EmptyView(c), id, m, u)
  {
  }

  // ---------------------------------------------------------------- snapshots

  /** A user new under an emoji comes last; removing one closes the gap; no other list changes. */
  lemma TogglePlaces(r: Reactions, emoji: string, user: string, k: nat, m: string)
    requires Tidy(r)
    ensures !Reacted(r, emoji, user) ==> Toggle(r, emoji, user, true) == r[emoji := Users(r, emoji) + [user]]
    ensures !Reacted(r, emoji, user) ==> Users(Toggle(r, emoji, user, false), emoji) == Users(r, emoji)
    ensures k < |Users(r, emoji)| && Users(r, emoji)[k] == user ==>
      && Users(Toggle(r, emoji, user, true), emoji) == Users(r, emoji)
      && Users(Toggle(r, emoji, user, false), emoji) == Users(r, emoji)[..k] + Users(r, emoji)[k + 1..]
    ensures m != emoji ==>
      Users(Toggle(r, emoji, user, true), m) == Users(Toggle(r, emoji, user, false), m) == Users(r, m)
  {
    hide IndexOf;
    ToggleElsewhere(r, emoji, user, true, m);
    ToggleElsewhere(r, emoji, user, false, m);
    var users := Users(r, emoji);
    IndexOfFirst(users, user);
    TidyUsers(r, emoji);
    if k < |users| && users[k] == user {
      assert IndexOf(users, user) == k;
    }
  }

  lemma TidyUsers(r: Reactions, emoji: string)
    requires Tidy(r)
    ensures NoRepeat(Users(r, emoji))
  {
  }

  lemma ToggleElsewhere(r: Reactions, emoji: string, user: string, add: bool, m: string)
    ensures m != emoji ==> Users(Toggle(r, emoji, user, add), m) == Users(r, m)
  {
  }

  /** A reader of a version sees the collapsed entries with a real version up to it, and one who asks for the newest
      state all of these; there is a snapshot for him if the log is not empty and the comment existed then. */
  lemma SeenExactly(c: Comment, s: Log, v: int, e: CommentEvent)
    ensures e in Seen(s, v) <==>
      e in Dedup(s) && 0 <= e.atVersion < 0x7FFF_FFFF_FFFF_FFFF
      && (0 <= v < 0x7FFF_FFFF_FFFF_FFFF ==> e.atVersion <= v)
    ensures SnapshotOf(c, s, v).Some? <==>
      s != [] && c.createdIn <= if 0 <= v < 0x7FFF_FFFF_FFFF_FFFF then v else 0x7FFF_FFFF_FFFF_FFFF
    ensures SortedByVersion(Seen(s, v))
  {
    ReadersSee(s, ReadAt(v), e);
    StableSortSorted(Dedup(s));
    SeenSorted(Ordered(s), ReadAt(v));
  }

  lemma {:induction false} SeenSorted(o: Log, at: int)
    requires SortedByVersion(o)
    ensures SortedByVersion(VisibleAt(o, at))
  {
    if o != [] {
      SeenSorted(o[..|o| - 1], at);
      VisibleBounds(o[..|o| - 1], at);
      var t := VisibleAt(o[..|o| - 1], at);
      forall i | 0 <= i < |t| ensures t[i].atVersion <= o[|o| - 1].atVersion {
        assert t[i] in o[..|o| - 1];
      }
    }
  }

  /** Text, anchor, status and appliedIn of every snapshot are those of the last event seen that
      writes them; a comment no such event was seen of is blank and open. */
  lemma LastWriterDecides(c: Comment, s: Log, v: int, snap: CommentSnapshot)
    requires SnapshotOf(c, s, v) == Some(snap)
    ensures forall k: nat :: IsLast(Seen(s, v), TextPart, k) ==> snap.text == Seen(s, v)[k].text
    ensures Unwritten(Seen(s, v), TextPart) ==> snap.text == ""
    ensures forall k: nat :: IsLast(Seen(s, v), AnchorPart, k) ==> snap.anchor == Seen(s, v)[k].anchor
    ensures Unwritten(Seen(s, v), AnchorPart) ==> snap.anchor == None
    ensures forall k: nat :: IsLast(Seen(s, v), StatusPart, k) ==>
      var e := Seen(s, v)[k];
      if e.kind.MarkedApplied? then
        snap.status == Applied && snap.appliedIn == Some(if e.appliedIn.Some? then e.appliedIn.value else e.atVersion)
      else snap.status == Open && snap.appliedIn == None
    ensures Unwritten(Seen(s, v), StatusPart) ==> snap.status == Open && snap.appliedIn == None
    ensures snap.id == c.id && snap.author == c.author && snap.created == c.created
    ensures snap.createdIn == snap.version == c.createdIn
  {
    hide FoldEvents, IsLast, Unwritten, Toggle, LiveReplies, VisibleAt;
    ParentFold(c, Seen(s, v), "", "");
    KeepsIdentity(c, Seen(s, v));
  }

  /** Who wrote the comment, when and for which version. */
  predicate SameWho(snap: CommentSnapshot, c: Comment) {
    && snap.id == c.id && snap.author == c.author && snap.created == c.created
    && snap.createdIn == snap.version == c.createdIn
  }

  lemma StepKeepsWho(st: FoldView, e: CommentEvent, c: Comment)
    requires SameWho(st.snap, c)
    ensures SameWho(Step(st, e).snap, c)
  {
    hide StepReply, Toggle, NewReply, VerdictEmoji;
  }

  lemma {:induction false} KeepsIdentity(c: Comment, t: Log)
    ensures SameWho(FoldEvents(EmptyView(c), t).snap, c)
  {
    hide Step, SameWho;
    if t == [] {
      SameAtFirst(c);
    } else {
      KeepsIdentity(c, t[..|t| - 1]);
      StepKeepsWho(FoldEvents(EmptyView(c), t[..|t| - 1]), t[|t| - 1], c);
    }
  }

  lemma SameAtFirst(c: Comment)
    ensures SameWho(EmptyView(c).snap, c)
  {
  }

  /** The agent shows this emoji: it is the one of the verdict the last status event seen carries. */
  ghost predicate AgentShows(t: Log, emoji: string) {
    exists k: nat :: IsLast(t, VerdictPart, k) && ShowsFor(VerdictOf(t[k]), emoji)
  }

  predicate ShowsFor(verdict: Option<string>, emoji: string) {
    || (verdict == Some("applied") && emoji == "\U{2705}")
    || (verdict == Some("partial") && emoji == "\U{1F7E1}")
    || (verdict == Some("question") && emoji == "\U{2753}")
  }

  /** The user's last reaction event under the emoji adds it. */
  ghost predicate LastAdds(t: Log, m: string, u: string) {
    m != "" && u != "" && exists k: nat :: IsLast(t, Membership(m, u), k) && t[k].kind.ReactionAdded?
  }

  /** A user is listed under an emoji of the comment if and only if the last event seen for the two
      adds it, or the user is the agent and the emoji that of its last verdict. */
  lemma ReactionsDecided(c: Comment, s: Log, v: int, snap: CommentSnapshot, m: string, u: string)
    requires SnapshotOf(c, s, v) == Some(snap)
    ensures Reacted(snap.reactions, m, u) <==>
            LastAdds(Seen(s, v), m, u) || (u == "odoc-agent" && AgentShows(Seen(s, v), m))
  {
    hide FoldEvents, IsLast, Unwritten, Toggle, LiveReplies, VisibleAt, Tidy, Reacted;
    var t := Seen(s, v);
    var st := FoldEvents(EmptyView(c), t);
    ParentFold(c, t, m, u);
    WrittenOrNot(t, Membership(m, u));
    WrittenOrNot(t, VerdictPart);
    LastUnique(t);
    if st.verdict.Some? {
      ToggleExact(st.snap.reactions, VerdictEmoji(st.verdict.value), AGENT, true);
    }
  }

  lemma {:induction false} WrittenOrNot(t: Log, p: Part)
    ensures Unwritten(t, p) <==> !exists k: nat :: IsLast(t, p, k)
  {
    if t != [] {
      var f, e := t[..|t| - 1], t[|t| - 1];
      WrittenOrNot(f, p);
      LastSnoc(f, e, p);
      assert t == f + [e];
      if Writes(p, e) {
        assert IsLast(t, p, |f|);
      } else if k: nat :| IsLast(f, p, k) {
        assert IsLast(t, p, k);
      }
    }
  }

  lemma LastUnique(t: Log)
    ensures forall p, j: nat, k: nat :: IsLast(t, p, j) && IsLast(t, p, k) ==> j == k
  {
  }

  ghost predicate Gone(t: Log, id: string) {
    exists k: nat :: IsLast(t, ReplyGone(id), k) && t[k].kind.ReplyDeleted?
  }

  ghost function Living(ids: seq<string>, t: Log): seq<string> {
    if ids == [] then []
    else
      var id := ids[|ids| - 1];
      if Gone(t, id) then Living(ids[..|ids| - 1], t) else Living(ids[..|ids| - 1], t) + [id]
  }

  function IdsOf(replies: seq<ReplySnapshot>): (ids: seq<string>)
    ensures |ids| == |replies| && forall i :: 0 <= i < |ids| ==> ids[i] == replies[i].id
  {
    seq(|replies|, i requires 0 <= i < |replies| => replies[i].id)
  }

  lemma {:induction false} LiveIds(t: Log, st: FoldView, order: seq<string>)
    requires forall id :: id in order ==> id in st.replyById && st.replyById[id].id == id
    requires forall id :: id in order ==> (st.replyById[id].deleted <==> Gone(t, id))
    ensures IdsOf(LiveReplies(order, st.replyById)) == Living(order, t)
  {
    hide Gone;
    if order != [] {
      var rest, id := order[..|order| - 1], order[|order| - 1];
      assert forall x :: x in rest ==> x in order;
      assert id in order;
      LiveIds(t, st, rest);
    }
  }

  lemma GoneOrNot(c: Comment, t: Log, id: string)
    requires AddedIn(t, id)
    ensures var byId := FoldEvents(EmptyView(c), t).replyById;
      id in byId && (byId[id].deleted <==> Gone(t, id)) && byId[id].id == id
  {
    hide FoldEvents, IsLast, Unwritten, ReplyMembers;
    ReplyFold(c, t, id, "", "");
    WrittenOrNot(t, ReplyGone(id));
    WrittenOrNot(t, ReplyIs(id));
    AddsWrites(t, id);
    LastUnique(t);
  }

  lemma AddsWrites(t: Log, id: string)
    requires AddedIn(t, id)
    ensures !Unwritten(t, ReplyIs(id)) && !Unwritten(t, ReplyText(id)) && !Unwritten(t, ReplyGone(id))
    ensures forall m, u :: !Unwritten(t, ReplyMembership(id, m, u))
  {
    var k :| 0 <= k < |t| && Adds(t[k], id);
    assert Writes(ReplyIs(id), t[k]) && Writes(ReplyText(id), t[k]) && Writes(ReplyGone(id), t[k]);
    forall m, u ensures !Unwritten(t, ReplyMembership(id, m, u)) {
      assert Writes(ReplyMembership(id, m, u), t[k]);
    }
  }

  /** A listed reply reads what the last events seen of it wrote. */
  ghost predicate ReplyReads(t: Log, parentId: string, r: ReplySnapshot) {
    && r.parentId == parentId && !r.deleted
    && (exists k: nat :: IsLast(t, ReplyIs(r.id), k) && t[k].reply.Some?
          && r.author == t[k].reply.value.author && r.created == t[k].at
          && r.agentStatus == if t[k].reply.value.agentStatus == "" then None else Some(t[k].reply.value.agentStatus))
    && (exists k: nat :: IsLast(t, ReplyText(r.id), k)
          && r.text == if t[k].kind.ReplyAdded? && t[k].reply.Some? then t[k].reply.value.text else t[k].text)
    && forall m, u :: Reacted(r.reactions, m, u) <==>
          m != "" && u != ""
          && exists k: nat :: IsLast(t, ReplyMembership(r.id, m, u), k) && t[k].kind.ReplyReactionAdded?
  }

  /** The replies listed are those added and not deleted since, in the order in which they were added,
      and each reads what the last events seen of it wrote. */
  lemma RepliesRead(c: Comment, s: Log, v: int, snap: CommentSnapshot)
    requires SnapshotOf(c, s, v) == Some(snap)
    ensures IdsOf(snap.replies) == Living(AddedIds(Seen(s, v)), Seen(s, v))
    ensures forall i :: 0 <= i < |snap.replies| ==> ReplyReads(Seen(s, v), c.id, snap.replies[i])
  {
    hide FoldEvents, IsLast, Toggle, LiveReplies, VisibleAt, Gone, Living, ReplyReads, AddedIn, AddedIds;
    var t := Seen(s, v);
    var st := FoldEvents(EmptyView(c), t);
    ReplyFold(c, t, "", "", "");
    KeepsIdentity(c, t);
    forall id | id in st.replyOrder
      ensures id in st.replyById && st.replyById[id].id == id && (st.replyById[id].deleted <==> Gone(t, id))
    {
      InOrder(t, id);
      GoneOrNot(c, t, id);
    }
    LiveIds(t, st, st.replyOrder);
    LiveRepliesFrom(st.replyOrder, st.replyById);
    forall i | 0 <= i < |snap.replies| ensures ReplyReads(t, c.id, snap.replies[i]) {
      assert snap.replies[i] in LiveReplies(st.replyOrder, st.replyById);
      var id :| id in st.replyOrder && id in st.replyById && st.replyById[id] == snap.replies[i];
      LivingReads(c, t, id);
    }
  }

  lemma {:induction false} InOrder(t: Log, id: string)
    requires id in AddedIds(t)
    ensures AddedIn(t, id)
  {
    if t != [] {
      var f, e := t[..|t| - 1], t[|t| - 1];
      assert t == f + [e];
      AddedSnoc(f, e, id);
      if id in AddedIds(f) {
        InOrder(f, id);
      }
    }
  }

  lemma LivingReads(c: Comment, t: Log, id: string)
    requires var byId := FoldEvents(EmptyView(c), t).replyById; id in byId && !byId[id].deleted
    ensures ReplyReads(t, c.id, FoldEvents(EmptyView(c), t).replyById[id])
  {
    hide FoldEvents, IsLast, Unwritten, Tidy, Reacted;
    var st := FoldEvents(EmptyView(c), t);
    var r := st.replyById[id];
    KeepsIdentity(c, t);
    ReplyFold(c, t, id, "", "");
    AddsWrites(t, id);
    LastUnique(t);
    WrittenOrNot(t, ReplyIs(id));
    WrittenOrNot(t, ReplyText(id));
    forall k: nat, p | IsLast(t, p, k) ensures k < |t| {
      LastInside(t, p, k);
    }
    forall m, u
      ensures Reacted(r.reactions, m, u) <==>
        m != "" && u != "" && exists k: nat :: IsLast(t, ReplyMembership(id, m, u), k) && t[k].kind.ReplyReactionAdded?
    {
      ReplyFold(c, t, id, m, u);
      WrittenOrNot(t, ReplyMembership(id, m, u));
    }
  }
}
