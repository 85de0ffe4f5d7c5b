/** Reading only some events of a log: selection commutes with the stable order and with visibility. */
module Selection {
  import opened CommentTypes
  import opened EventLog
  import opened CommentFold

  /** The kinds of events one part of a snapshot depends on. */
  datatype Pick =
    | ContentEvents
    | StatusEvents
    | ParentReactions
    | ReactionsBy(emoji: string, user: string)
    | ReplyEvents
    | AllButDeletions

  predicate Picks(pick: Pick, e: CommentEvent) {
    match pick
    case ContentEvents => e.kind.Created? || e.kind.TextEdited? || e.kind.AnchorChanged?
    case StatusEvents => IsStateFlag(e.kind) || e.kind.AnchorChanged?
    case ParentReactions => IsReaction(e.kind)
    case ReactionsBy(emoji, user) => IsReaction(e.kind) && e.emoji == emoji && e.user == user
    case ReplyEvents =>
      e.kind.ReplyAdded? || e.kind.ReplyTextEdited? || e.kind.ReplyDeleted?
      || e.kind.ReplyReactionAdded? || e.kind.ReplyReactionRemoved?
    case AllButDeletions => !e.kind.Deleted?
  }

  /** The events of the log that pick accepts, in log order. */
  function Select(s: Log, pick: Pick): Log {
    if s == [] then []
    else Select(s[..|s| - 1], pick) + (if Picks(pick, s[|s| - 1]) then [s[|s| - 1]] else [])
  }

  lemma {:induction false} SelectAppend(s: Log, t: Log, pick: Pick)
    ensures Select(s + t, pick) == Select(s, pick) + Select(t, pick)
  {
    if t == [] {
      assert s + t == s;
    } else {
      assert (s + t)[..|s + t| - 1] == s + t[..|t| - 1];
      SelectAppend(s, t[..|t| - 1], pick);
    }
  }

  lemma {:induction false} SelectMembers(s: Log, pick: Pick)
    ensures forall e :: e in Select(s, pick) <==> e in s && Picks(pick, e)
  {
    if s != [] {
      SelectMembers(s[..|s| - 1], pick);
      assert forall e :: e in s <==> e in s[..|s| - 1] || e == s[|s| - 1];
    }
  }

  lemma SelectSnoc(s: Log, e: CommentEvent, pick: Pick)
    ensures Select(s + [e], pick) == if Picks(pick, e) then Select(s, pick) + [e] else Select(s, pick)
  {
    assert (s + [e])[..|s|] == s;
  }

  lemma InsertSnoc(s: Log, x: CommentEvent, e: CommentEvent)
    ensures Insert(s + [x], e) == if x.atVersion <= e.atVersion then s + [x] + [e] else Insert(s, e) + [x]
  {
    assert (s + [x])[..|s|] == s;
  }

  lemma StableSortSnoc(s: Log, e: CommentEvent)
    ensures StableSort(s + [e]) == Insert(StableSort(s), e)
  {
    assert (s + [e])[..|s|] == s;
  }

  lemma InsertBehind(s: Log, e: CommentEvent)
    requires s == [] || s[|s| - 1].atVersion <= e.atVersion
    ensures Insert(s, e) == s + [e]
  {
  }

  lemma {:induction false} SelectInsert(s: Log, e: CommentEvent, pick: Pick)
    requires SortedByVersion(s)
    ensures Select(Insert(s, e), pick) == if Picks(pick, e) then Insert(Select(s, pick), e) else Select(s, pick)
  {
    hide Picks, Insert;
    if s == [] || s[|s| - 1].atVersion <= e.atVersion {
      SelectSnoc(s, e, pick);
      SelectMembers(s, pick);
      var r := Select(s, pick);
      assert r != [] ==> r[|r| - 1] in s;
      InsertBehind(s, e);
      InsertBehind(r, e);
    } else {
      var t, x := s[..|s| - 1], s[|s| - 1];
      assert s == t + [x];
      InsertSnoc(t, x, e);
      SelectInsert(t, e, pick);
      SelectSnoc(Insert(t, e), x, pick);
      if Picks(pick, x) {
        assert Select(s, pick) == Select(t, pick) + [x];
        InsertSnoc(Select(t, pick), x, e);
      } else {
        assert Select(s, pick) == Select(t, pick);
      }
    }
  }

  lemma {:induction false} SelectSort(s: Log, pick: Pick)
    ensures Select(StableSort(s), pick) == StableSort(Select(s, pick))
  {
    if s != [] {
      var t, e := s[..|s| - 1], s[|s| - 1];
      SelectSort(t, pick);
      StableSortSorted(t);
      SelectInsert(StableSort(t), e, pick);
      if Picks(pick, e) {
        StableSortSnoc(Select(t, pick), e);
        assert Select(s, pick) == Select(t, pick) + [e];
      } else {
        assert Select(s, pick) == Select(t, pick);
      }
    }
  }

  lemma {:induction false} SelectVisible(s: Log, at: int, pick: Pick)
    ensures Select(VisibleAt(s, at), pick) == VisibleAt(Select(s, pick), at)
  {
    if s != [] {
      var t, e := s[..|s| - 1], s[|s| - 1];
      SelectVisible(t, at, pick);
      SelectAppend(VisibleAt(t, at), if Visible(e, at) then [e] else [], pick);
      VisibleAppend(Select(t, pick), if Picks(pick, e) then [e] else [], at);
      assert Select([e], pick) == if Picks(pick, e) then [e] else [];
      assert VisibleAt([e], at) == if Visible(e, at) then [e] else [];
    }
  }

  /** What a reader of version at sees of the picked events: only they matter. */
  lemma SelectSeen(d: Log, at: int, pick: Pick)
    ensures Select(VisibleAt(StableSort(d), at), pick) == VisibleAt(StableSort(Select(d, pick)), at)
  {
    SelectVisible(StableSort(d), at, pick);
    SelectSort(d, pick);
  }

  lemma {:induction false} SelectNone(s: Log, pick: Pick)
    requires forall i :: 0 <= i < |s| ==> !Picks(pick, s[i])
    ensures Select(s, pick) == []
  {
    if s != [] {
      SelectNone(s[..|s| - 1], pick);
    }
  }

  lemma {:induction false} SelectAll(s: Log, pick: Pick)
    requires forall i :: 0 <= i < |s| ==> Picks(pick, s[i])
    ensures Select(s, pick) == s
  {
    if s != [] {
      SelectAll(s[..|s| - 1], pick);
      assert s == s[..|s| - 1] + [s[|s| - 1]];
    }
  }

  lemma {:induction false} SelectOne(s: Log, pick: Pick, i: nat)
    requires i < |s| && forall k :: 0 <= k < |s| ==> (Picks(pick, s[k]) <==> k == i)
    ensures Select(s, pick) == [s[i]]
  {
    if i == |s| - 1 {
      SelectNone(s[..|s| - 1], pick);
    } else {
      SelectOne(s[..|s| - 1], pick, i);
    }
  }

  lemma {:induction false} SelectTwo(s: Log, pick: Pick, i: nat, j: nat)
    requires i < j < |s| && forall k :: 0 <= k < |s| ==> (Picks(pick, s[k]) <==> k == i || k == j)
    ensures Select(s, pick) == [s[i], s[j]]
  {
    if j == |s| - 1 {
      SelectOne(s[..|s| - 1], pick, i);
    } else {
      SelectTwo(s[..|s| - 1], pick, i, j);
    }
  }

  /** Replacing an unpicked entry by an unpicked one is not noticed. */
  lemma {:induction false} SelectReplaced(s: Log, i: nat, e: CommentEvent, pick: Pick)
    requires i < |s| && !Picks(pick, s[i]) && !Picks(pick, e)
    ensures Select(s[i := e], pick) == Select(s, pick)
  {
    var t := s[..|s| - 1];
    if i < |t| {
      SelectReplaced(t, i, e, pick);
      assert s[i := e][..|s| - 1] == t[i := e];
    } else {
      assert s[i := e][..|s| - 1] == t;
    }
  }

  /** Two fold states agree in the part that the picked events decide. */
  predicate Agree(pick: Pick, a: FoldView, b: FoldView) {
    a.snap.id == b.snap.id &&
    match pick
    case ContentEvents => a.snap.anchor == b.snap.anchor && a.snap.text == b.snap.text
    case StatusEvents =>
      a.snap.status == b.snap.status && a.snap.appliedIn == b.snap.appliedIn && a.snap.deleted == b.snap.deleted
      && a.verdict == b.verdict
    case ParentReactions => a.snap.reactions == b.snap.reactions
    case ReactionsBy(emoji, user) => true
    case ReplyEvents => a.replyOrder == b.replyOrder && a.replyById == b.replyById
    case AllButDeletions => a.(snap := a.snap.(deleted := false)) == b.(snap := b.snap.(deleted := false))
  }

  lemma StepIgnores(pick: Pick, a: FoldView, e: CommentEvent)
    requires !Picks(pick, e)
    ensures Agree(pick, Step(a, e), a)
  {
  }

  lemma StepFollows(pick: Pick, a: FoldView, b: FoldView, e: CommentEvent)
    requires Agree(pick, a, b) && Picks(pick, e)
    ensures Agree(pick, Step(a, e), Step(b, e))
  {
    match pick
    case ContentEvents => StepFollowsContent(a, b, e);
    case StatusEvents => StepFollowsStatus(a, b, e);
    case ParentReactions => StepFollowsReactions(a, b, e);
    case ReactionsBy(_, _) => StepKeepsId(a, e); StepKeepsId(b, e);
    case ReplyEvents => StepFollowsReplies(a, b, e);
    case AllButDeletions => StepFollowsUndeleted(a, b, e);
  }

  lemma StepKeepsId(a: FoldView, e: CommentEvent)
    ensures Step(a, e).snap.id == a.snap.id
  {
  }

  lemma StepFollowsContent(a: FoldView, b: FoldView, e: CommentEvent)
    requires Agree(ContentEvents, a, b) && Picks(ContentEvents, e)
    ensures Agree(ContentEvents, Step(a, e), Step(b, e))
  {
  }

  lemma StepFollowsStatus(a: FoldView, b: FoldView, e: CommentEvent)
    requires Agree(StatusEvents, a, b) && Picks(StatusEvents, e)
    ensures Agree(StatusEvents, Step(a, e), Step(b, e))
  {
  }

  lemma StepFollowsReactions(a: FoldView, b: FoldView, e: CommentEvent)
    requires Agree(ParentReactions, a, b) && Picks(ParentReactions, e)
    ensures Agree(ParentReactions, Step(a, e), Step(b, e))
  {
  }

  lemma StepFollowsReplies(a: FoldView, b: FoldView, e: CommentEvent)
    requires Agree(ReplyEvents, a, b) && Picks(ReplyEvents, e)
    ensures Agree(ReplyEvents, Step(a, e), Step(b, e))
  {
  }

  lemma StepFollowsUndeleted(a: FoldView, b: FoldView, e: CommentEvent)
    requires Agree(AllButDeletions, a, b) && Picks(AllButDeletions, e)
    ensures Agree(AllButDeletions, Step(a, e), Step(b, e))
  {
    hide Step;
    assert a == Marked(b, a.snap.deleted);
    StepMarked(b, a.snap.deleted, e);
  }

  function Marked(st: FoldView, deleted: bool): FoldView {
    st.(snap := st.snap.(deleted := deleted))
  }

  lemma StepMarked(st: FoldView, deleted: bool, e: CommentEvent)
    requires !e.kind.Deleted?
    ensures Step(Marked(st, deleted), e) == Marked(Step(st, e), deleted)
  {
    hide StepReply, Toggle, NewReply, VerdictEmoji;
    match e.kind
    case ReplyAdded =>
    case ReactionAdded =>
    case ReactionRemoved =>
    case MarkedApplied =>
    case _ =>
  }

  /** Each part of a fold depends on its own events alone. */
  lemma {:induction false} FoldAgrees(pick: Pick, st: FoldView, s: Log)
    ensures Agree(pick, FoldEvents(st, s), FoldEvents(st, Select(s, pick)))
  {
    if s != [] {
      var f, e := s[..|s| - 1], s[|s| - 1];
      var g := Select(f, pick);
      FoldAgrees(pick, st, f);
      if Picks(pick, e) {
        StepFollows(pick, FoldEvents(st, f), FoldEvents(st, g), e);
        FoldSnoc(st, g, e);
        assert Select(s, pick) == g + [e];
      } else {
        StepIgnores(pick, FoldEvents(st, f), e);
        assert Select(s, pick) == g;
      }
    }
  }
}
