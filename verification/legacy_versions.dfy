/** What every version's reader finds in a migrated flat record. */
module LegacyVersions {
  import opened CommentTypes
  import opened EventLog
  import opened CommentFold
  import opened LegacyMigration
  import opened CommentOps
  import opened LegacyLaws

  // ---------------------------------------------------------------- seeing and sorting

  lemma {:induction false} InsertAbove(o: Log, e: CommentEvent)
    requires forall i :: 0 <= i < |o| ==> o[i].atVersion <= e.atVersion
    ensures Insert(o, e) == o + [e]
  {
  }

  lemma {:induction false} VisibleInsert(o: Log, e: CommentEvent, u: int)
    requires SortedByVersion(o)
    ensures VisibleAt(Insert(o, e), u) == if Visible(e, u) then Insert(VisibleAt(o, u), e) else VisibleAt(o, u)
  {
    hide VisibleAt, Visible, Insert;
    if o == [] || o[|o| - 1].atVersion <= e.atVersion {
      InsertAbove(o, e);
      VisibleSnoc(o, e, u);
      VisibleBounds(o, u);
      forall i | 0 <= i < |VisibleAt(o, u)| ensures VisibleAt(o, u)[i].atVersion <= e.atVersion {
        assert VisibleAt(o, u)[i] in o;
      }
      InsertAbove(VisibleAt(o, u), e);
    } else {
      var t, x := o[..|o| - 1], o[|o| - 1];
      assert o == t + [x];
      InsertBeforeLast(t, x, e);
      VisibleInsert(t, e, u);
      VisibleSnoc(Insert(t, e), x, u);
      VisibleSnoc(t, x, u);
      InsertBeforeLast(VisibleAt(t, u), x, e);
    }
  }

  lemma {:induction false} VisibleSort(s: Log, u: int)
    ensures VisibleAt(StableSort(s), u) == StableSort(VisibleAt(s, u))
  {
    if s != [] {
      var t, e := s[..|s| - 1], s[|s| - 1];
      VisibleSort(t, u);
      StableSortSorted(t);
      VisibleInsert(StableSort(t), e, u);
      VisibleSnoc(t, e, u);
      assert s == t + [e];
      if Visible(e, u) {
        var w := VisibleAt(t, u);
        assert (w + [e])[..|w|] == w;
      }
    }
  }

  lemma {:induction false} VisibleSamePayloads(a: Log, b: Log, u: int)
    requires SamePayloads(a, b)
    ensures SamePayloads(VisibleAt(a, u), VisibleAt(b, u))
  {
    if a != [] {
      VisibleSamePayloads(a[..|a| - 1], b[..|b| - 1], u);
    }
  }

  /** A reader of version u finds in an unnamed log, once named, what it holds up to u. */
  lemma ReadOfUnnamed(c: Comment, s: Log, serial: nat, u: int)
    requires Unnamed(s) && NoSameId(s)
    ensures Replay(c, Backfill(s, serial), u) == FoldEvents(EmptyView(c), StableSort(VisibleAt(s, u)))
  {
    var r := Backfill(s, serial);
    BackfillDistinct(s, serial);
    DedupOfDistinct(r);
    SortSamePayloads(r, s);
    VisibleSamePayloads(StableSort(r), StableSort(s), u);
    FoldSamePayloads(EmptyView(c), VisibleAt(StableSort(r), u), VisibleAt(StableSort(s), u));
    VisibleSort(s, u);
  }

  // ---------------------------------------------------------------- the record up to a version

  function KeptReplies(raw: seq<Option<LegacyReply>>, v: int, u: int): seq<Option<LegacyReply>> {
    if raw == [] then []
    else
      var last := raw[|raw| - 1];
      if last.Some? && ReplyVersion(last.value, v) > u then KeptReplies(raw[..|raw| - 1], v, u)
      else KeptReplies(raw[..|raw| - 1], v, u) + [last]
  }

  /** The flat record without what is of a version above u. */
  function Upto(c: Comment, u: int): Comment {
    var v := FlatVersion(c);
    c.(legacy := c.legacy.(
         status := if OrElse(c.legacy.appliedIn, v) > u then "" else c.legacy.status,
         replies := KeptReplies(c.legacy.replies, v, u)))
  }

  function RepliesUpto(rs: seq<LegacyReply>, v: int, u: int): seq<LegacyReply> {
    if rs == [] then []
    else if ReplyVersion(rs[|rs| - 1], v) > u then RepliesUpto(rs[..|rs| - 1], v, u)
    else RepliesUpto(rs[..|rs| - 1], v, u) + [rs[|rs| - 1]]
  }

  lemma GoodSnoc(raw: seq<Option<LegacyReply>>, x: Option<LegacyReply>)
    ensures GoodReplies(raw + [x]) ==
      if x.Some? && x.value.id != "" then GoodReplies(raw) + [x.value] else GoodReplies(raw)
  {
    assert (raw + [x])[..|raw|] == raw;
  }

  lemma UptoSnoc(rs: seq<LegacyReply>, r: LegacyReply, v: int, u: int)
    ensures RepliesUpto(rs + [r], v, u) ==
      if ReplyVersion(r, v) > u then RepliesUpto(rs, v, u) else RepliesUpto(rs, v, u) + [r]
  {
    assert (rs + [r])[..|rs|] == rs;
  }

  lemma {:induction false} GoodKept(raw: seq<Option<LegacyReply>>, v: int, u: int)
    ensures GoodReplies(KeptReplies(raw, v, u)) == RepliesUpto(GoodReplies(raw), v, u)
  {
    hide GoodReplies, KeptReplies, RepliesUpto, ReplyVersion;
    if raw == [] {
      NothingKept(v, u);
    } else {
      var t, x := raw[..|raw| - 1], raw[|raw| - 1];
      GoodKept(t, v, u);
      assert raw == t + [x];
      GoodSnoc(t, x);
      KeptSnoc(t, x, v, u);
      GoodSnoc(KeptReplies(t, v, u), x);
      if x.Some? {
        UptoSnoc(GoodReplies(t), x.value, v, u);
      }
    }
  }

  lemma NothingKept(v: int, u: int)
    ensures KeptReplies([], v, u) == [] && GoodReplies([]) == [] && RepliesUpto([], v, u) == []
  {
  }

  lemma KeptSnoc(raw: seq<Option<LegacyReply>>, x: Option<LegacyReply>, v: int, u: int)
    ensures KeptReplies(raw + [x], v, u) ==
      if x.Some? && ReplyVersion(x.value, v) > u then KeptReplies(raw, v, u) else KeptReplies(raw, v, u) + [x]
  {
    assert (raw + [x])[..|raw|] == raw;
  }

  lemma {:induction false} VisibleNone(s: Log, u: int)
    requires forall i :: 0 <= i < |s| ==> s[i].atVersion > u
    ensures VisibleAt(s, u) == []
  {
    if s != [] {
      VisibleNone(s[..|s| - 1], u);
    }
  }

  lemma {:induction false} BlocksSeen(rs: seq<LegacyReply>, v: int, at: string, u: int)
    requires forall i :: 0 <= i < |rs| ==> IsFiniteVersion(ReplyVersion(rs[i], v))
    ensures VisibleAt(ReplyBlocks(rs, v, at), u) == ReplyBlocks(RepliesUpto(rs, v, u), v, at)
  {
    if rs != [] {
      var f, r := rs[..|rs| - 1], rs[|rs| - 1];
      BlocksSeen(f, v, at, u);
      var block := ReplyBlock(r, v, at);
      VisibleAppend(ReplyBlocks(f, v, at), block, u);
      BlockVersion(r, v, at);
      if ReplyVersion(r, v) > u {
        VisibleNone(block, u);
      } else {
        VisibleAll(block, u);
        BlocksSnoc(RepliesUpto(f, v, u), r, v, at);
      }
    }
  }

  lemma {:induction false} UptoPlain(rs: seq<LegacyReply>, v: int, u: int)
    requires PlainReplies(rs, v)
    ensures PlainReplies(RepliesUpto(rs, v, u), v)
    ensures forall x :: x in RepliesUpto(rs, v, u) ==> x in rs
  {
    if rs != [] {
      var f, r := rs[..|rs| - 1], rs[|rs| - 1];
      PlainRepliesPrefix(rs, v);
      UptoPlain(f, v, u);
      var g := RepliesUpto(f, v, u);
      forall i | 0 <= i < |g| ensures g[i].id != r.id {
        assert g[i] in f;
      }
      PlainRepliesSnoc(g, r, v);
    }
  }

  lemma UptoIsPlain(c: Comment, u: int)
    requires PlainRecord(c)
    ensures PlainRecord(Upto(c, u)) && FlatVersion(Upto(c, u)) == FlatVersion(c)
  {
    hide GoodReplies, PlainReplies, KeptReplies;
    GoodKept(c.legacy.replies, FlatVersion(c), u);
    UptoPlain(GoodReplies(c.legacy.replies), FlatVersion(c), u);
  }

  lemma PlainIsFinite(rs: seq<LegacyReply>, v: int)
    requires PlainReplies(rs, v)
    ensures forall i :: 0 <= i < |rs| ==> IsFiniteVersion(ReplyVersion(rs[i], v))
  {
  }

  lemma ReactionsSeen(c: Comment, clock: string, u: int)
    requires PlainRecord(c) && FlatVersion(c) <= u
    ensures var s := ReactionEvents(ReactionAdded, "", c.legacy.reactions, FlatVersion(c), FlatTime(c, clock));
      VisibleAt(s, u) == s
  {
    hide ReactionEvents, PlainReplies, PlainReactions;
    var s := ReactionEvents(ReactionAdded, "", c.legacy.reactions, FlatVersion(c), FlatTime(c, clock));
    PartEvents(2, c, clock);
    forall i | 0 <= i < |s| ensures Visible(s[i], u) {
      assert s[i] in Part(2, c, clock);
    }
    VisibleAll(s, u);
  }

  lemma AppliedFinite(c: Comment, clock: string)
    requires PlainRecord(c)
    ensures forall e :: e in AppliedSeeds(c, clock) ==>
      IsFiniteVersion(e.atVersion) && e.atVersion == OrElse(c.legacy.appliedIn, FlatVersion(c))
  {
  }

  lemma AppliedSeen(c: Comment, clock: string, u: int)
    requires PlainRecord(c)
    ensures VisibleAt(AppliedSeeds(c, clock), u) == AppliedSeeds(Upto(c, u), clock)
  {
    hide PlainReplies, PlainReactions, KeptReplies, VisibleAt, PlainRecord;
    var s := AppliedSeeds(c, clock);
    AppliedFinite(c, clock);
    if OrElse(c.legacy.appliedIn, FlatVersion(c)) > u {
      VisibleNone(s, u);
    } else {
      VisibleAll(s, u);
    }
  }

  lemma RepliesSeen(c: Comment, clock: string, u: int)
    requires PlainRecord(c)
    ensures var v, at := FlatVersion(c), FlatTime(c, clock);
      VisibleAt(ReplyBlocks(GoodReplies(c.legacy.replies), v, at), u)
      == ReplyBlocks(GoodReplies(Upto(c, u).legacy.replies), v, at)
  {
    hide GoodReplies, PlainReplies, KeptReplies, ReplyBlocks;
    GoodKept(c.legacy.replies, FlatVersion(c), u);
    PlainIsFinite(GoodReplies(c.legacy.replies), FlatVersion(c));
    BlocksSeen(GoodReplies(c.legacy.replies), FlatVersion(c), FlatTime(c, clock), u);
  }

  lemma FourSeen(a: Log, b: Log, c: Log, d: Log, u: int)
    ensures VisibleAt(a + b + c + d, u) == VisibleAt(a, u) + VisibleAt(b, u) + VisibleAt(c, u) + VisibleAt(d, u)
  {
    VisibleAppend(a, b, u);
    VisibleAppend(a + b, c, u);
    VisibleAppend(a + b + c, d, u);
  }

  /** What a reader of version u sees of the migrated events is the migrated record up to u. */
  lemma LegacySeen(c: Comment, clock: string, u: int)
    requires PlainRecord(c) && FlatVersion(c) <= u
    ensures VisibleAt(LegacyEvents(c, clock), u) == LegacyEvents(Upto(c, u), clock)
  {
    hide VisibleAt, ReplyBlocks, ReactionEvents, AppliedSeeds, PlainReplies, PlainReactions, KeptReplies, GoodReplies,
      CreatedSeed;
    UptoIsPlain(c, u);
    ReactionsSeen(c, clock, u);
    AppliedSeen(c, clock, u);
    RepliesSeen(c, clock, u);
    CreatedSeen(c, clock, u);
    FourSeen([CreatedSeed(c, clock)], AppliedSeeds(c, clock),
        ReactionEvents(ReactionAdded, "", c.legacy.reactions, FlatVersion(c), FlatTime(c, clock)),
        ReplyBlocks(GoodReplies(c.legacy.replies), FlatVersion(c), FlatTime(c, clock)), u);
  }

  lemma CreatedSeen(c: Comment, clock: string, u: int)
    requires IsFiniteVersion(FlatVersion(c)) && FlatVersion(c) <= u
    ensures VisibleAt([CreatedSeed(c, clock)], u) == [CreatedSeed(Upto(c, u), clock)]
  {
    VisibleAll([CreatedSeed(c, clock)], u);
  }

  /** The snapshot at u is the newest one of the record up to u. */
  lemma SnapshotUpto(c: Comment, clock: string, serial: nat, u: int)
    requires PlainRecord(c) && IsFiniteVersion(u) && FlatVersion(c) <= u
    ensures Snapshot(EnsureLog(c, clock, serial).0, u)
         == Snapshot(EnsureLog(Upto(c, u), clock, serial).0, VERSION_LATEST)
  {
    hide LegacyEvents, VisibleAt, FoldEvents, Finalize, PlainReplies, PlainReactions, KeptReplies, GoodReplies,
      StableSort, Ordered, Backfill, Unnamed, NoSameId;
    var x := Upto(c, u);
    UptoIsPlain(c, u);
    LegacySeen(c, clock, u);
    LegacyMembers(c, clock);
    LegacyNoSameId(c, clock);
    LegacyMembers(x, clock);
    LegacyNoSameId(x, clock);
    ReadOfUnnamed(EnsureLog(c, clock, serial).0, LegacyEvents(c, clock), serial, u);
    LatestOfUnnamed(EnsureLog(x, clock, serial).0, LegacyEvents(x, clock), serial);
  }

  // ---------------------------------------------------------------- in the record's own fields

  function VersionOf(r: LegacyReply, v: int): int {
    if r.version.Some? then r.version.value else v
  }

  /** The replies of a raw list that decode, have an id and are of version n, in their order. */
  function DecodedAt(raw: seq<Option<LegacyReply>>, v: int, n: int): seq<LegacyReply> {
    if raw == [] then []
    else
      var x := raw[|raw| - 1];
      if x.Some? && x.value.id != "" && VersionOf(x.value, v) == n then DecodedAt(raw[..|raw| - 1], v, n) + [x.value]
      else DecodedAt(raw[..|raw| - 1], v, n)
  }

  function OfVersion(rs: seq<LegacyReply>, v: int, n: int): seq<LegacyReply> {
    if rs == [] then []
    else if VersionOf(rs[|rs| - 1], v) == n then OfVersion(rs[..|rs| - 1], v, n) + [rs[|rs| - 1]]
    else OfVersion(rs[..|rs| - 1], v, n)
  }

  /** want is the replies of the raw list up to version u, ordered by version, each version's as they stood. */
  ghost predicate IsSortedUpto(want: seq<LegacyReply>, raw: seq<Option<LegacyReply>>, v: int, u: int) {
    && (forall i, j :: 0 <= i < j < |want| ==> VersionOf(want[i], v) <= VersionOf(want[j], v))
    && (forall n :: OfVersion(want, v, n) == if n <= u then DecodedAt(raw, v, n) else [])
  }

  /** The reply listed for a flat one. */
  ghost predicate Carries(got: ReplySnapshot, r: LegacyReply, parentId: string, at: string) {
    && got.id == r.id && got.parentId == parentId && got.author == r.author && got.text == r.text
    && got.agentStatus == (if r.agentStatus == "" then None else Some(r.agentStatus))
    && got.created == (if r.created == "" then at else r.created) && !got.deleted
    && SameUsers(got.reactions, r.reactions)
  }

  lemma {:induction false} OfVersionSame(rs: seq<LegacyReply>, v: int, n: int)
    ensures OfVersion(rs, v, n) == RepliesAt(rs, v, n)
  {
    if rs != [] {
      OfVersionSame(rs[..|rs| - 1], v, n);
    }
  }

  lemma DecodedSnoc(raw: seq<Option<LegacyReply>>, x: Option<LegacyReply>, v: int, n: int)
    ensures DecodedAt(raw + [x], v, n) ==
      if x.Some? && x.value.id != "" && VersionOf(x.value, v) == n then DecodedAt(raw, v, n) + [x.value]
      else DecodedAt(raw, v, n)
  {
    assert (raw + [x])[..|raw|] == raw;
  }

  lemma OfVersionSnoc(rs: seq<LegacyReply>, r: LegacyReply, v: int, n: int)
    ensures OfVersion(rs + [r], v, n) ==
      if VersionOf(r, v) == n then OfVersion(rs, v, n) + [r] else OfVersion(rs, v, n)
  {
    assert (rs + [r])[..|rs|] == rs;
  }

  lemma {:induction false} DecodedKept(raw: seq<Option<LegacyReply>>, v: int, u: int, n: int)
    ensures OfVersion(GoodReplies(KeptReplies(raw, v, u)), v, n) == if n <= u then DecodedAt(raw, v, n) else []
  {
    hide GoodReplies, KeptReplies, DecodedAt, OfVersion;
    if raw == [] {
      NothingDecoded(v, u, n);
    } else {
      var t, x := raw[..|raw| - 1], raw[|raw| - 1];
      assert raw == t + [x];
      DecodedKept(t, v, u, n);
      KeptSnoc(t, x, v, u);
      GoodSnoc(KeptReplies(t, v, u), x);
      DecodedSnoc(t, x, v, n);
      if x.Some? {
        OfVersionSnoc(GoodReplies(KeptReplies(t, v, u)), x.value, v, n);
      }
    }
  }

  lemma NothingDecoded(v: int, u: int, n: int)
    ensures KeptReplies([], v, u) == [] && GoodReplies([]) == []
    ensures OfVersion([], v, n) == [] && DecodedAt([], v, n) == []
  {
  }

  lemma SortedUpto(c: Comment, u: int)
    ensures var v := FlatVersion(c);
      IsSortedUpto(SortReplies(GoodReplies(Upto(c, u).legacy.replies), v), c.legacy.replies, v, u)
  {
    hide GoodReplies, KeptReplies, DecodedAt, OfVersion, SortReplies, RepliesAt;
    var v := FlatVersion(c);
    var rs := GoodReplies(KeptReplies(c.legacy.replies, v, u));
    var want := SortReplies(rs, v);
    forall n ensures OfVersion(want, v, n) == if n <= u then DecodedAt(c.legacy.replies, v, n) else [] {
      SortRepliesStable(rs, v, n);
      OfVersionSame(want, v, n);
      OfVersionSame(rs, v, n);
      DecodedKept(c.legacy.replies, v, u, n);
    }
    SortRepliesStable(rs, v, 0);
    forall i, j | 0 <= i < j < |want| ensures VersionOf(want[i], v) <= VersionOf(want[j], v) {
      assert ReplyVersion(want[i], v) <= ReplyVersion(want[j], v);
    }
  }

  /** A migrated flat record at every version u, in the record's own fields: nothing below its version (1 if
      it names none); from there on its text and anchor, its reactions, applied once u reaches the version it
      was applied in, and its replies up to u in the order of their versions, each as the record has it. */
  lemma MigrationAtEveryVersion(c: Comment, clock: string, serial: nat, u: int) returns (want: seq<LegacyReply>)
    requires PlainRecord(c) && IsFiniteVersion(u)
    ensures var v := if c.legacy.version.Some? then c.legacy.version.value else 1;
      var at := if c.created == "" then clock else c.created;
      var since := if c.legacy.appliedIn.Some? then c.legacy.appliedIn.value else v;
      var applied := c.legacy.status == "applied" && since <= u;
      var snap := Snapshot(EnsureLog(c, clock, serial).0, u);
      && (snap.Some? <==> v <= u)
      && IsSortedUpto(want, c.legacy.replies, v, u)
      && (v <= u ==>
            && snap.value.id == c.id && snap.value.author == c.author && snap.value.created == at
            && snap.value.createdIn == v && !snap.value.deleted
            && snap.value.anchor == c.legacy.anchor
            && snap.value.text == (if c.legacy.text.Some? then c.legacy.text.value else "")
            && snap.value.status == (if applied then Applied else Open)
            && snap.value.appliedIn == (if applied then Some(since) else None)
            && (forall m, w :: Reacted(snap.value.reactions, m, w) <==>
                  Reacted(c.legacy.reactions, m, w) || (applied && m == "\U{2705}" && w == "odoc-agent"))
            && |snap.value.replies| == |want|
            && forall i :: 0 <= i < |want| ==> Carries(snap.value.replies[i], want[i], c.id, at))
  {
    hide GoodReplies, KeptReplies, DecodedAt, OfVersion, SortReplies, FoldEvents, Finalize, LegacyEvents, Backfill,
      PlainReplies, PlainReactions, Ordered, VisibleAt, Toggle, SnapshotOf, ReplyReturns, Carries, SameUsers, Reacted,
      IsSortedUpto;
    var v := FlatVersion(c);
    SortedUpto(c, u);
    want := SortReplies(GoodReplies(Upto(c, u).legacy.replies), v);
    if v <= u {
      SnapshotUpto(c, clock, serial, u);
      UptoIsPlain(c, u);
      MigrationKeepsMeaning(Upto(c, u), clock, serial);
      var snap := Snapshot(EnsureLog(c, clock, serial).0, u).value;
      forall i | 0 <= i < |want| ensures Carries(snap.replies[i], want[i], c.id, FlatTime(c, clock)) {
        assert ReplyReturns(snap.replies[i], want[i], c.id, FlatTime(c, clock));
        ReturnsCarries(snap.replies[i], want[i], c.id, FlatTime(c, clock));
      }
      ReactionsBack(snap.reactions, c.legacy.reactions,
          c.legacy.status == "applied" && OrElse(c.legacy.appliedIn, v) <= u);
    } else {
      NotYet(c, clock, serial, u);
    }
  }

  lemma ReturnsCarries(got: ReplySnapshot, r: LegacyReply, parentId: string, at: string)
    requires ReplyReturns(got, r, parentId, at)
    ensures Carries(got, r, parentId, at)
  {
  }

  lemma NotYet(c: Comment, clock: string, serial: nat, u: int)
    requires PlainRecord(c) && IsFiniteVersion(u) && u < FlatVersion(c)
    ensures Snapshot(EnsureLog(c, clock, serial).0, u).None?
  {
    hide FoldEvents, Finalize, Backfill, PlainReplies, PlainReactions, Ordered, VisibleAt;
  }

  lemma ReactionsBack(got: Reactions, r: Reactions, applied: bool)
    requires SameUsers(got, if applied then Toggle(r, VerdictEmoji("applied"), AGENT, true) else r)
    ensures forall m, w :: Reacted(got, m, w) <==>
              Reacted(r, m, w) || (applied && m == "\U{2705}" && w == "odoc-agent")
  {
    hide Toggle;
    AddShows(r, VerdictEmoji("applied"), AGENT);
    var t := if applied then Toggle(r, VerdictEmoji("applied"), AGENT, true) else r;
    forall m ensures Users(got, m) == Users(t, m) {
    }
  }

  lemma AddShows(r: Reactions, emoji: string, user: string)
    ensures forall m, w :: Reacted(Toggle(r, emoji, user, true), m, w) <==>
              Reacted(r, m, w) || (m == emoji && w == user)
  {
    IndexOfFirst(Users(r, emoji), user);
    var t := Toggle(r, emoji, user, true);
    forall m ensures Users(t, m) == if m == emoji && user !in Users(r, m) then Users(r, m) + [user] else Users(r, m) {
    }
  }
}
