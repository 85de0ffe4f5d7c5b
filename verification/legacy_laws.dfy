/** Migration keeps the meaning of a flat record. */
module LegacyLaws {
  import opened CommentTypes
  import opened EventLog
  import opened CommentFold
  import opened LegacyMigration
  import opened CommentOps
  import opened CommentRuns
  import opened Selection

  // ---------------------------------------------------------------- ids of a migrated log

  /** Two unnamed events whose computed ids coincide. */
  predicate SameId(a: CommentEvent, b: CommentEvent) {
    !NeedsSerial(a) && !NeedsSerial(b) && EventEid(a, 0) == EventEid(b, 0)
  }

  predicate Unnamed(s: Log) {
    forall i :: 0 <= i < |s| ==> s[i].eid.NoEid?
  }

  predicate NoSameId(s: Log) {
    forall i, j :: 0 <= i < j < |s| ==> !SameId(s[i], s[j])
  }

  lemma {:induction false} BackfillIds(s: Log, serial: nat)
    requires Unnamed(s)
    ensures var r := Backfill(s, serial);
      forall i :: 0 <= i < |s| ==>
        if NeedsSerial(s[i]) then r[i].eid.OneShotEid? && r[i].eid.serial < NextSerial(s, serial)
        else r[i].eid == EventEid(s[i], 0)
  {
    if s != [] {
      BackfillIds(s[..|s| - 1], serial);
    }
  }

  lemma {:induction false} BackfillDistinct(s: Log, serial: nat)
    requires Unnamed(s) && NoSameId(s)
    ensures DistinctEids(Backfill(s, serial))
  {
    if s != [] {
      var t, e := s[..|s| - 1], s[|s| - 1];
      BackfillDistinct(t, serial);
      BackfillIds(t, serial);
      var r := Backfill(t, serial);
      var x := Stamp(e, NextSerial(t, serial));
      forall i | 0 <= i < |r| ensures r[i].eid != x.eid {
        assert !SameId(s[i], s[|s| - 1]);
      }
    }
  }

  // ---------------------------------------------------------------- ids do not matter to a fold

  predicate SamePayloads(a: Log, b: Log) {
    |a| == |b| && forall i :: 0 <= i < |a| ==> a[i] == b[i].(eid := a[i].eid)
  }

  lemma {:induction false} InsertSamePayloads(a: Log, b: Log, x: CommentEvent, y: CommentEvent)
    requires SamePayloads(a, b) && x == y.(eid := x.eid)
    ensures SamePayloads(Insert(a, x), Insert(b, y))
  {
    if a != [] && a[|a| - 1].atVersion > x.atVersion {
      InsertSamePayloads(a[..|a| - 1], b[..|b| - 1], x, y);
    }
  }

  lemma {:induction false} SortSamePayloads(a: Log, b: Log)
    requires SamePayloads(a, b)
    ensures SamePayloads(StableSort(a), StableSort(b))
  {
    if a != [] {
      SortSamePayloads(a[..|a| - 1], b[..|b| - 1]);
      InsertSamePayloads(StableSort(a[..|a| - 1]), StableSort(b[..|b| - 1]), a[|a| - 1], b[|b| - 1]);
    }
  }

  lemma StepSamePayload(st: FoldView, x: CommentEvent, y: CommentEvent)
    requires x == y.(eid := x.eid)
    ensures Step(st, x) == Step(st, y)
  {
  }

  lemma {:induction false} FoldSamePayloads(st: FoldView, a: Log, b: Log)
    requires SamePayloads(a, b)
    ensures FoldEvents(st, a) == FoldEvents(st, b)
  {
    if a != [] {
      FoldSamePayloads(st, a[..|a| - 1], b[..|b| - 1]);
      StepSamePayload(FoldEvents(st, a[..|a| - 1]), a[|a| - 1], b[|b| - 1]);
    }
  }

  predicate FiniteVersions(s: Log) {
    forall i :: 0 <= i < |s| ==> IsFiniteVersion(s[i].atVersion)
  }

  /** The newest reading of a migrated log is the fold of its unnamed events in version order. */
  lemma LatestOfUnnamed(c: Comment, s: Log, serial: nat)
    requires Unnamed(s) && NoSameId(s) && FiniteVersions(s)
    ensures Replay(c, Backfill(s, serial), VERSION_LATEST) == FoldEvents(EmptyView(c), StableSort(s))
  {
    var r := Backfill(s, serial);
    BackfillDistinct(s, serial);
    DedupOfDistinct(r);
    var o := StableSort(r);
    StableSortMembers(r);
    forall i | 0 <= i < |o| ensures Visible(o[i], VERSION_LATEST) {
      assert o[i] in r;
      var k :| 0 <= k < |r| && r[k] == o[i];
      assert IsFiniteVersion(s[k].atVersion);
    }
    VisibleAll(o, VERSION_LATEST);
    SortSamePayloads(r, s);
    FoldSamePayloads(EmptyView(c), o, StableSort(s));
  }

  // ---------------------------------------------------------------- reactions

  /** The reaction table of a list of additions. */
  function AddAll(r: Reactions, s: Log): Reactions {
    if s == [] then r
    else
      var e := s[|s| - 1];
      Toggle(AddAll(r, s[..|s| - 1]), e.emoji, e.user, true)
  }

  predicate SameUsers(a: Reactions, b: Reactions) {
    (forall m :: m in a ==> Users(a, m) == Users(b, m)) && (forall m :: m in b ==> Users(a, m) == Users(b, m))
  }

  /** Emoji without a colon, users without a repeat or an empty name. */
  predicate PlainReactions(r: Reactions) {
    forall m :: m in r ==> m != "" && ':' !in m && NoRepeat(r[m]) && "" !in r[m]
  }

  lemma AddUser(r: Reactions, emoji: string, user: string)
    requires user !in Users(r, emoji)
    ensures Users(Toggle(r, emoji, user, true), emoji) == Users(r, emoji) + [user]
    ensures forall m :: m != emoji ==> Users(Toggle(r, emoji, user, true), m) == Users(r, m)
  {
    IndexOfFirst(Users(r, emoji), user);
  }

  lemma {:induction false} AddAllUsers(kind: EventKind, replyId: string, r: Reactions, emoji: string,
                                       users: seq<string>, v: int, at: string)
    requires NoRepeat(users) && Users(r, emoji) == []
    ensures var t := AddAll(r, UserEvents(kind, replyId, emoji, users, v, at));
      Users(t, emoji) == users && forall m :: m != emoji ==> Users(t, m) == Users(r, m)
  {
    hide Toggle;
    if users != [] {
      var f, u := users[..|users| - 1], users[|users| - 1];
      AddAllUsers(kind, replyId, r, emoji, f, v, at);
      var s := UserEvents(kind, replyId, emoji, users, v, at);
      assert s[..|s| - 1] == UserEvents(kind, replyId, emoji, f, v, at);
      AddUser(AddAll(r, s[..|s| - 1]), emoji, u);
      assert users == f + [u];
    }
  }

  lemma {:induction false} AddAllAppend(r: Reactions, s: Log, t: Log)
    ensures AddAll(r, s + t) == AddAll(AddAll(r, s), t)
  {
    if t == [] {
      assert s + t == s;
    } else {
      assert (s + t)[..|s + t| - 1] == s + t[..|t| - 1];
      AddAllAppend(r, s, t[..|t| - 1]);
    }
  }

  lemma {:induction false} AddAllKeys(kind: EventKind, replyId: string, r: Reactions, keys: seq<string>, v: int,
                                      at: string)
    requires (forall k :: k in keys ==> k in r) && NoRepeat(keys) && PlainReactions(r)
    ensures forall m ::
      Users(AddAll(map[], KeyEvents(kind, replyId, r, keys, v, at)), m) == if m in keys then r[m] else []
  {
    if keys != [] {
      var f, k := keys[..|keys| - 1], keys[|keys| - 1];
      AddAllKeys(kind, replyId, r, f, v, at);
      AddAllAppend(map[], KeyEvents(kind, replyId, r, f, v, at), UserEvents(kind, replyId, k, r[k], v, at));
      assert k !in f;
      AddAllUsers(kind, replyId, AddAll(map[], KeyEvents(kind, replyId, r, f, v, at)), k, r[k], v, at);
    }
  }

  /** The reactions of a flat record come back under every emoji, in their order. */
  lemma ReactionsReturn(kind: EventKind, replyId: string, r: Reactions, v: int, at: string)
    requires PlainReactions(r)
    ensures SameUsers(AddAll(map[], ReactionEvents(kind, replyId, r, v, at)), r)
  {
    hide AddAll, KeyEvents, SortedKeys;
    SortedKeysAscend(r.Keys);
    AddAllKeys(kind, replyId, r, SortedKeys(r.Keys), v, at);
  }

  /** Every event of a flat reaction table. */
  predicate IsAddition(e: CommentEvent, kind: EventKind, replyId: string, r: Reactions, v: int) {
    && e.kind == kind && e.eid.NoEid? && e.atVersion == v && e.replyId == replyId
    && e.emoji in r && e.user in r[e.emoji]
  }

  predicate AllAdditions(s: Log, kind: EventKind, replyId: string, r: Reactions, keys: seq<string>, v: int) {
    forall i :: 0 <= i < |s| ==> IsAddition(s[i], kind, replyId, r, v) && s[i].emoji in keys
  }

  lemma {:induction false} KeyEventsAreAdditions(kind: EventKind, replyId: string, r: Reactions, keys: seq<string>,
                                                 v: int, at: string)
    requires forall k :: k in keys ==> k in r
    ensures AllAdditions(KeyEvents(kind, replyId, r, keys, v, at), kind, replyId, r, keys, v)
  {
    if keys != [] {
      var f, k := keys[..|keys| - 1], keys[|keys| - 1];
      KeyEventsAreAdditions(kind, replyId, r, f, v, at);
      var a, b := KeyEvents(kind, replyId, r, f, v, at), UserEvents(kind, replyId, k, r[k], v, at);
      var s := KeyEvents(kind, replyId, r, keys, v, at);
      assert s == a + b;
      forall i | 0 <= i < |s| ensures IsAddition(s[i], kind, replyId, r, v) && s[i].emoji in keys {
        if i < |a| {
          assert s[i] == a[i] && a[i].emoji in f;
        } else {
          assert s[i] == b[i - |a|];
        }
      }
    }
  }

  /** No membership is added twice. */
  predicate NoSameMember(s: Log) {
    forall i, j :: 0 <= i < j < |s| ==> !(s[i].emoji == s[j].emoji && s[i].user == s[j].user)
  }

  lemma {:induction false} KeyEventsOnce(kind: EventKind, replyId: string, r: Reactions, keys: seq<string>, v: int,
                                         at: string)
    requires (forall k :: k in keys ==> k in r) && NoRepeat(keys) && PlainReactions(r)
    ensures NoSameMember(KeyEvents(kind, replyId, r, keys, v, at))
  {
    if keys != [] {
      var f, k := keys[..|keys| - 1], keys[|keys| - 1];
      KeyEventsOnce(kind, replyId, r, f, v, at);
      KeyEventsAreAdditions(kind, replyId, r, f, v, at);
      var a, b := KeyEvents(kind, replyId, r, f, v, at), UserEvents(kind, replyId, k, r[k], v, at);
      var s := a + b;
      forall i, j | 0 <= i < j < |s| ensures !(s[i].emoji == s[j].emoji && s[i].user == s[j].user) {
        if j >= |a| {
          assert s[j] == b[j - |a|];
          if i < |a| {
            assert s[i] == a[i] && a[i].emoji in f;
            assert k !in f;
          } else {
            assert s[i] == b[i - |a|];
          }
        } else {
          assert s[i] == a[i] && s[j] == a[j];
        }
      }
    }
  }

  lemma FirstColon(m: string, u: string)
    requires ':' !in m
    ensures var s := m + ":" + u;
      s[|m|] == ':' && (forall i :: 0 <= i < |m| ==> s[i] != ':') && s[..|m|] == m && s[|m| + 1..] == u
  {
    assert forall i :: 0 <= i < |m| ==> m[i] != ':';
  }

  /** Without colons in the emoji, emoji and user can be read off the id. */
  lemma KeyInjective(m: string, u: string, n: string, w: string)
    requires ':' !in m && ':' !in n && m + ":" + u == n + ":" + w
    ensures m == n && u == w
  {
    FirstColon(m, u);
    FirstColon(n, w);
  }

  // ---------------------------------------------------------------- replies, stable-sorted by version

  function InsertReply(rs: seq<LegacyReply>, r: LegacyReply, v: int): seq<LegacyReply> {
    if rs == [] || ReplyVersion(rs[|rs| - 1], v) <= ReplyVersion(r, v) then rs + [r]
    else InsertReply(rs[..|rs| - 1], r, v) + [rs[|rs| - 1]]
  }

  /** The replies by version, equal versions in stored order. */
  function SortReplies(rs: seq<LegacyReply>, v: int): seq<LegacyReply> {
    if rs == [] then [] else InsertReply(SortReplies(rs[..|rs| - 1], v), rs[|rs| - 1], v)
  }

  function InsertAll(o: Log, b: Log): Log {
    if b == [] then o else Insert(InsertAll(o, b[..|b| - 1]), b[|b| - 1])
  }

  predicate AllAt(b: Log, u: int) {
    forall i :: 0 <= i < |b| ==> b[i].atVersion == u
  }

  lemma {:induction false} SortAppend(s: Log, b: Log)
    ensures StableSort(s + b) == InsertAll(StableSort(s), b)
  {
    if b == [] {
      assert s + b == s;
    } else {
      assert (s + b)[..|s + b| - 1] == s + b[..|b| - 1];
      SortAppend(s, b[..|b| - 1]);
    }
  }

  lemma {:induction false} InsertAllEnd(o: Log, b: Log, u: int)
    requires AllAt(b, u) && (o == [] || o[|o| - 1].atVersion <= u)
    ensures InsertAll(o, b) == o + b
  {
    if b != [] {
      InsertAllEnd(o, b[..|b| - 1], u);
      assert o + b[..|b| - 1] + [b[|b| - 1]] == o + b;
    }
  }

  lemma {:induction false} InsertAllBefore(o: Log, y: CommentEvent, b: Log, u: int)
    requires AllAt(b, u) && u < y.atVersion
    ensures InsertAll(o + [y], b) == InsertAll(o, b) + [y]
  {
    if b != [] {
      InsertAllBefore(o, y, b[..|b| - 1], u);
      InsertSnoc(InsertAll(o, b[..|b| - 1]), y, b[|b| - 1]);
    }
  }

  lemma {:induction false} InsertAllBeforeAll(o: Log, ys: Log, b: Log, u: int, w: int)
    requires AllAt(b, u) && AllAt(ys, w) && u < w
    ensures InsertAll(o + ys, b) == InsertAll(o, b) + ys
  {
    hide InsertAll;
    if ys == [] {
      assert o + ys == o;
    } else {
      var f, y := ys[..|ys| - 1], ys[|ys| - 1];
      InsertAllBeforeAll(o, f, b, u, w);
      InsertAllBefore(o + f, y, b, u);
      assert (o + f) + [y] == o + ys;
      assert (InsertAll(o, b) + f) + [y] == InsertAll(o, b) + ys;
    }
  }

  lemma BlockVersion(r: LegacyReply, v: int, at: string)
    ensures AllAt(ReplyBlock(r, v, at), ReplyVersion(r, v))
    ensures AllAdditions(ReactionEvents(ReplyReactionAdded, r.id, r.reactions, ReplyVersion(r, v), ReplyTime(r, at)),
                         ReplyReactionAdded, r.id, r.reactions, SortedKeys(r.reactions.Keys), ReplyVersion(r, v))
    ensures forall i :: 0 <= i < |ReplyBlock(r, v, at)| ==> Picks(ReplyEvents, ReplyBlock(r, v, at)[i])
  {
    var keys := SortedKeys(r.reactions.Keys);
    KeyEventsAreAdditions(ReplyReactionAdded, r.id, r.reactions, keys, ReplyVersion(r, v), ReplyTime(r, at));
    var s := ReactionEvents(ReplyReactionAdded, r.id, r.reactions, ReplyVersion(r, v), ReplyTime(r, at));
    assert forall i :: 0 <= i < |s| ==> IsAddition(s[i], ReplyReactionAdded, r.id, r.reactions, ReplyVersion(r, v));
  }

  lemma LastOfBlocks(rs: seq<LegacyReply>, v: int, at: string)
    requires rs != []
    ensures var o := ReplyBlocks(rs, v, at); o != [] && o[|o| - 1].atVersion == ReplyVersion(rs[|rs| - 1], v)
  {
    var b := ReplyBlock(rs[|rs| - 1], v, at);
    BlockVersion(rs[|rs| - 1], v, at);
    assert b[|b| - 1].atVersion == ReplyVersion(rs[|rs| - 1], v);
  }

  lemma BlocksSnoc(rs: seq<LegacyReply>, r: LegacyReply, v: int, at: string)
    ensures ReplyBlocks(rs + [r], v, at) == ReplyBlocks(rs, v, at) + ReplyBlock(r, v, at)
  {
    assert (rs + [r])[..|rs|] == rs;
  }

  lemma InsertBlockEnd(rs: seq<LegacyReply>, r: LegacyReply, v: int, at: string)
    requires rs == [] || ReplyVersion(rs[|rs| - 1], v) <= ReplyVersion(r, v)
    ensures InsertAll(ReplyBlocks(rs, v, at), ReplyBlock(r, v, at)) == ReplyBlocks(rs + [r], v, at)
  {
    BlockVersion(r, v, at);
    if rs != [] {
      LastOfBlocks(rs, v, at);
    }
    InsertAllEnd(ReplyBlocks(rs, v, at), ReplyBlock(r, v, at), ReplyVersion(r, v));
    BlocksSnoc(rs, r, v, at);
  }

  lemma InsertBlockBefore(f: seq<LegacyReply>, y: LegacyReply, r: LegacyReply, v: int, at: string)
    requires ReplyVersion(r, v) < ReplyVersion(y, v)
    requires InsertAll(ReplyBlocks(f, v, at), ReplyBlock(r, v, at)) == ReplyBlocks(InsertReply(f, r, v), v, at)
    ensures InsertAll(ReplyBlocks(f + [y], v, at), ReplyBlock(r, v, at)) ==
      ReplyBlocks(InsertReply(f, r, v) + [y], v, at)
  {
    BlockVersion(r, v, at);
    BlockVersion(y, v, at);
    InsertAllBeforeAll(ReplyBlocks(f, v, at), ReplyBlock(y, v, at), ReplyBlock(r, v, at), ReplyVersion(r, v),
        ReplyVersion(y, v));
    BlocksSnoc(f, y, v, at);
    BlocksSnoc(InsertReply(f, r, v), y, v, at);
  }

  lemma {:induction false} InsertBlock(rs: seq<LegacyReply>, r: LegacyReply, v: int, at: string)
    ensures InsertAll(ReplyBlocks(rs, v, at), ReplyBlock(r, v, at)) == ReplyBlocks(InsertReply(rs, r, v), v, at)
  {
    hide InsertAll, ReplyBlock, ReplyBlocks;
    if rs == [] || ReplyVersion(rs[|rs| - 1], v) <= ReplyVersion(r, v) {
      InsertBlockEnd(rs, r, v, at);
    } else {
      var f, y := rs[..|rs| - 1], rs[|rs| - 1];
      InsertBlock(f, r, v, at);
      InsertBlockBefore(f, y, r, v, at);
      assert f + [y] == rs;
    }
  }

  /** Sorting the events of the replies is sorting the replies. */
  lemma {:induction false} SortBlocks(rs: seq<LegacyReply>, v: int, at: string)
    ensures StableSort(ReplyBlocks(rs, v, at)) == ReplyBlocks(SortReplies(rs, v), v, at)
  {
    if rs != [] {
      var f, r := rs[..|rs| - 1], rs[|rs| - 1];
      SortBlocks(f, v, at);
      SortAppend(ReplyBlocks(f, v, at), ReplyBlock(r, v, at));
      InsertBlock(SortReplies(f, v), r, v, at);
    }
  }

  // ---------------------------------------------------------------- folding the replies

  ghost function ExpectedReply(r: LegacyReply, parentId: string, v: int, at: string): ReplySnapshot {
    NewReply(parentId, ReplySeed(r.id, r.author, r.text, r.agentStatus), ReplyTime(r, at)).(
      reactions := AddAll(map[], ReactionEvents(ReplyReactionAdded, r.id, r.reactions, ReplyVersion(r, v),
          ReplyTime(r, at))))
  }

  predicate AllNamed(s: Log, replyId: string) {
    forall i :: 0 <= i < |s| ==>
      s[i].kind.ReplyReactionAdded? && s[i].replyId == replyId && s[i].emoji != "" && s[i].user != ""
  }

  lemma StepNamed(st: FoldView, e: CommentEvent)
    requires e.kind.ReplyReactionAdded? && e.emoji != "" && e.user != "" && e.replyId in st.replyById
    ensures Step(st, e).replyOrder == st.replyOrder && Step(st, e).snap.id == st.snap.id
    ensures Step(st, e).replyById == st.replyById[e.replyId := st.replyById[e.replyId].(
      reactions := Toggle(st.replyById[e.replyId].reactions, e.emoji, e.user, true))]
  {
  }

  lemma {:induction false} FoldNamed(st: FoldView, s: Log, id: string)
    requires AllNamed(s, id) && id in st.replyById
    ensures var t := FoldEvents(st, s);
      && t.replyOrder == st.replyOrder && t.snap.id == st.snap.id
      && t.replyById == st.replyById[id := st.replyById[id].(reactions := AddAll(st.replyById[id].reactions, s))]
  {
    if s != [] {
      FoldNamed(st, s[..|s| - 1], id);
      StepNamed(FoldEvents(st, s[..|s| - 1]), s[|s| - 1]);
    }
  }

  lemma StepNewReply(st: FoldView, e: CommentEvent)
    requires e.kind.ReplyAdded? && e.reply.Some? && e.reply.value.id != ""
    ensures Step(st, e).replyOrder == st.replyOrder + [e.reply.value.id] && Step(st, e).snap.id == st.snap.id
    ensures Step(st, e).replyById == st.replyById[e.reply.value.id := NewReply(st.snap.id, e.reply.value, e.at)]
  {
  }

  lemma BlockFold(st: FoldView, r: LegacyReply, v: int, at: string)
    requires r.id != "" && PlainReactions(r.reactions)
    ensures var t := FoldEvents(st, ReplyBlock(r, v, at));
      && t.replyOrder == st.replyOrder + [r.id] && t.snap.id == st.snap.id
      && t.replyById == st.replyById[r.id := ExpectedReply(r, st.snap.id, v, at)]
  {
    var e := ReplyAddedSeed(r, v, at);
    var s := ReactionEvents(ReplyReactionAdded, r.id, r.reactions, ReplyVersion(r, v), ReplyTime(r, at));
    FoldAppend(st, [e], s);
    FoldSnoc(st, [], e);
    assert [] + [e] == [e];
    StepNewReply(st, e);
    BlockVersion(r, v, at);
    forall i | 0 <= i < |s|
      ensures s[i].kind.ReplyReactionAdded? && s[i].replyId == r.id && s[i].emoji != "" && s[i].user != ""
    {
      assert IsAddition(s[i], ReplyReactionAdded, r.id, r.reactions, ReplyVersion(r, v));
    }
    FoldNamed(FoldEvents(st, [e]), s, r.id);
  }

  function Ids(rs: seq<LegacyReply>): seq<string> {
    seq(|rs|, i requires 0 <= i < |rs| => rs[i].id)
  }

  predicate PlainReplies(rs: seq<LegacyReply>, v: int) {
    && NoRepeat(Ids(rs))
    && forall i :: 0 <= i < |rs| ==>
         rs[i].id != "" && PlainReactions(rs[i].reactions) && IsFiniteVersion(ReplyVersion(rs[i], v))
  }

  lemma PlainRepliesPrefix(rs: seq<LegacyReply>, v: int)
    requires rs != [] && PlainReplies(rs, v)
    ensures PlainReplies(rs[..|rs| - 1], v)
    ensures forall i :: 0 <= i < |rs| - 1 ==> rs[i].id != rs[|rs| - 1].id
  {
    var f := rs[..|rs| - 1];
    assert forall i :: 0 <= i < |f| ==> Ids(f)[i] == Ids(rs)[i];
    assert Ids(rs)[|rs| - 1] == rs[|rs| - 1].id;
    forall i | 0 <= i < |rs| - 1 ensures rs[i].id != rs[|rs| - 1].id {
      assert Ids(rs)[i] == rs[i].id;
    }
  }

  /** The replies of a fold are exactly the expected ones, in this order. */
  ghost predicate FoldedReplies(t: FoldView, rs: seq<LegacyReply>, parentId: string, v: int, at: string) {
    && t.replyOrder == Ids(rs) && t.snap.id == parentId
    && forall i :: 0 <= i < |rs| ==>
         rs[i].id in t.replyById && t.replyById[rs[i].id] == ExpectedReply(rs[i], parentId, v, at)
  }

  lemma FoldedSnoc(t: FoldView, f: seq<LegacyReply>, r: LegacyReply, parentId: string, v: int, at: string)
    requires FoldedReplies(t, f, parentId, v, at) && r.id != "" && PlainReactions(r.reactions)
    requires forall i :: 0 <= i < |f| ==> f[i].id != r.id
    ensures FoldedReplies(FoldEvents(t, ReplyBlock(r, v, at)), f + [r], parentId, v, at)
  {
    BlockFold(t, r, v, at);
    assert Ids(f + [r]) == Ids(f) + [r.id];
  }

  lemma FoldBlocksSnoc(st: FoldView, f: seq<LegacyReply>, r: LegacyReply, v: int, at: string)
    ensures FoldEvents(st, ReplyBlocks(f + [r], v, at)) ==
      FoldEvents(FoldEvents(st, ReplyBlocks(f, v, at)), ReplyBlock(r, v, at))
  {
    BlocksSnoc(f, r, v, at);
    FoldAppend(st, ReplyBlocks(f, v, at), ReplyBlock(r, v, at));
  }

  lemma BlocksFoldStep(st: FoldView, f: seq<LegacyReply>, r: LegacyReply, parentId: string, v: int, at: string)
    requires FoldedReplies(FoldEvents(st, ReplyBlocks(f, v, at)), f, parentId, v, at)
    requires r.id != "" && PlainReactions(r.reactions)
    requires forall i :: 0 <= i < |f| ==> f[i].id != r.id
    ensures FoldedReplies(FoldEvents(st, ReplyBlocks(f + [r], v, at)), f + [r], parentId, v, at)
  {
    FoldBlocksSnoc(st, f, r, v, at);
    FoldedSnoc(FoldEvents(st, ReplyBlocks(f, v, at)), f, r, parentId, v, at);
  }

  lemma NoBlocksFold(st: FoldView, v: int, at: string)
    requires st.replyOrder == []
    ensures FoldedReplies(FoldEvents(st, ReplyBlocks([], v, at)), [], st.snap.id, v, at)
  {
  }

  lemma {:induction false} BlocksFold(st: FoldView, rs: seq<LegacyReply>, v: int, at: string)
    requires PlainReplies(rs, v) && st.replyOrder == []
    ensures FoldedReplies(FoldEvents(st, ReplyBlocks(rs, v, at)), rs, st.snap.id, v, at)
  {
    hide FoldEvents, ReplyBlocks, ReplyBlock, FoldedReplies, PlainReactions;
    if rs == [] {
      NoBlocksFold(st, v, at);
    } else {
      var f, r := rs[..|rs| - 1], rs[|rs| - 1];
      PlainRepliesPrefix(rs, v);
      BlocksFold(st, f, v, at);
      BlocksFoldStep(st, f, r, st.snap.id, v, at);
      assert rs == f + [r];
    }
  }

  lemma {:induction false} LiveOfExpected(rs: seq<LegacyReply>, byId: map<string, ReplySnapshot>, parentId: string,
                                          v: int, at: string)
    requires forall i :: 0 <= i < |rs| ==> rs[i].id in byId && byId[rs[i].id] == ExpectedReply(rs[i], parentId, v, at)
    ensures var l := LiveReplies(Ids(rs), byId);
      |l| == |rs| && forall i :: 0 <= i < |rs| ==> l[i] == ExpectedReply(rs[i], parentId, v, at)
  {
    hide AddAll, ReactionEvents, Toggle;
    if rs != [] {
      var f := rs[..|rs| - 1];
      assert Ids(rs)[..|rs| - 1] == Ids(f);
      LiveOfExpected(f, byId, parentId, v, at);
    }
  }

  predicate PlainReply(r: LegacyReply, v: int) {
    r.id != "" && PlainReactions(r.reactions) && IsFiniteVersion(ReplyVersion(r, v))
  }

  predicate FreshReply(rs: seq<LegacyReply>, r: LegacyReply) {
    forall i :: 0 <= i < |rs| ==> rs[i].id != r.id
  }

  lemma PlainRepliesSnoc(rs: seq<LegacyReply>, r: LegacyReply, v: int)
    requires PlainReplies(rs, v) && PlainReply(r, v) && FreshReply(rs, r)
    ensures PlainReplies(rs + [r], v)
  {
    assert Ids(rs + [r]) == Ids(rs) + [r.id];
  }

  lemma {:induction false} InsertReplyPlain(rs: seq<LegacyReply>, r: LegacyReply, v: int)
    requires PlainReplies(rs, v) && PlainReply(r, v) && FreshReply(rs, r)
    ensures PlainReplies(InsertReply(rs, r, v), v)
    ensures forall x :: x in InsertReply(rs, r, v) <==> x in rs || x == r
  {
    if rs == [] || ReplyVersion(rs[|rs| - 1], v) <= ReplyVersion(r, v) {
      PlainRepliesSnoc(rs, r, v);
    } else {
      var f, y := rs[..|rs| - 1], rs[|rs| - 1];
      PlainRepliesPrefix(rs, v);
      InsertReplyPlain(f, r, v);
      var g := InsertReply(f, r, v);
      forall i | 0 <= i < |g| ensures g[i].id != y.id {
        assert g[i] in f || g[i] == r;
      }
      PlainRepliesSnoc(g, y, v);
      assert forall x :: x in rs <==> x in f || x == y;
    }
  }

  lemma {:induction false} SortRepliesPlain(rs: seq<LegacyReply>, v: int)
    requires PlainReplies(rs, v)
    ensures PlainReplies(SortReplies(rs, v), v)
    ensures forall x :: x in SortReplies(rs, v) <==> x in rs
  {
    if rs != [] {
      var f, r := rs[..|rs| - 1], rs[|rs| - 1];
      PlainRepliesPrefix(rs, v);
      SortRepliesPlain(f, v);
      var g := SortReplies(f, v);
      forall i | 0 <= i < |g| ensures g[i].id != r.id {
        assert g[i] in f;
      }
      InsertReplyPlain(g, r, v);
      assert forall x :: x in rs <==> x in f || x == r;
    }
  }

  // ---------------------------------------------------------------- the whole record

  /** A flat record that migration is meant for: real versions, plain reactions, replies with ids of
      their own. */
  predicate PlainRecord(c: Comment) {
    && c.events.None? && c.id != ""
    && IsFiniteVersion(FlatVersion(c))
    && IsFiniteVersion(OrElse(c.legacy.appliedIn, FlatVersion(c)))
    && PlainReactions(c.legacy.reactions)
    && PlainReplies(GoodReplies(c.legacy.replies), FlatVersion(c))
  }

  ghost function ReactionPart(c: Comment, clock: string): Log {
    ReactionEvents(ReactionAdded, "", c.legacy.reactions, FlatVersion(c), FlatTime(c, clock))
  }

  ghost function ReplyPart(c: Comment, clock: string): Log {
    ReplyBlocks(GoodReplies(c.legacy.replies), FlatVersion(c), FlatTime(c, clock))
  }

  predicate ReplyPartEvent(e: CommentEvent) {
    Picks(ReplyEvents, e) && IsFiniteVersion(e.atVersion)
  }

  lemma {:induction false} ReplyPartEvents(rs: seq<LegacyReply>, v: int, at: string)
    requires PlainReplies(rs, v)
    ensures forall e :: e in ReplyBlocks(rs, v, at) ==> ReplyPartEvent(e)
  {
    if rs != [] {
      var f, r := rs[..|rs| - 1], rs[|rs| - 1];
      PlainRepliesPrefix(rs, v);
      ReplyPartEvents(f, v, at);
      BlockVersion(r, v, at);
      var b := ReplyBlock(r, v, at);
      assert forall e :: e in b ==> ReplyPartEvent(e);
      assert ReplyBlocks(rs, v, at) == ReplyBlocks(f, v, at) + b;
    }
  }

  /** What each part of the migrated log is made of. */
  predicate PartEvent(k: int, e: CommentEvent, c: Comment) {
    e.eid.NoEid? && IsFiniteVersion(e.atVersion) &&
    if k == 0 then e.kind.Created?
    else if k == 1 then e.kind.MarkedApplied?
    else if k == 2 then IsAddition(e, ReactionAdded, "", c.legacy.reactions, FlatVersion(c))
    else Picks(ReplyEvents, e)
  }

  ghost function Part(k: int, c: Comment, clock: string): Log {
    if k == 0 then [CreatedSeed(c, clock)]
    else if k == 1 then AppliedSeeds(c, clock)
    else if k == 2 then ReactionPart(c, clock)
    else ReplyPart(c, clock)
  }

  lemma LegacyIsParts(c: Comment, clock: string)
    ensures LegacyEvents(c, clock) == Part(0, c, clock) + Part(1, c, clock) + Part(2, c, clock) + Part(3, c, clock)
  {
  }

  lemma PartEvents(k: int, c: Comment, clock: string)
    requires PlainRecord(c) && 0 <= k < 4
    ensures forall e :: e in Part(k, c, clock) ==> PartEvent(k, e, c)
  {
    LegacyIsParts(c, clock);
    LegacyUnnamed(c, clock);
    assert forall e :: e in Part(k, c, clock) ==> e in LegacyEvents(c, clock);
    if k == 2 {
      KeyEventsAreAdditions(ReactionAdded, "", c.legacy.reactions, SortedKeys(c.legacy.reactions.Keys), FlatVersion(c),
          FlatTime(c, clock));
      var s := ReactionPart(c, clock);
      assert forall i :: 0 <= i < |s| ==> IsAddition(s[i], ReactionAdded, "", c.legacy.reactions, FlatVersion(c));
    } else if k == 3 {
      ReplyPartEvents(GoodReplies(c.legacy.replies), FlatVersion(c), FlatTime(c, clock));
    }
  }

  function PartPick(k: int): Pick {
    if k == 0 then ContentEvents else if k == 1 then StatusEvents else if k == 2 then ParentReactions else ReplyEvents
  }

  lemma PartPicked(k: int, j: int, e: CommentEvent, c: Comment)
    requires PartEvent(j, e, c) && 0 <= k < 4 && 0 <= j < 4
    ensures Picks(PartPick(k), e) <==> j == k
  {
  }

  lemma SelectUniform(s: Log, pick: Pick, all: bool)
    requires forall e :: e in s ==> (Picks(pick, e) <==> all)
    ensures Select(s, pick) == if all then s else []
  {
    assert forall i :: 0 <= i < |s| ==> s[i] in s;
    if all {
      SelectAll(s, pick);
    } else {
      SelectNone(s, pick);
    }
  }

  lemma SelectPart(c: Comment, clock: string, k: int, j: int)
    requires PlainRecord(c) && 0 <= k < 4 && 0 <= j < 4
    ensures Select(Part(j, c, clock), PartPick(k)) == if j == k then Part(j, c, clock) else []
  {
    PartEvents(j, c, clock);
    forall e | e in Part(j, c, clock) ensures Picks(PartPick(k), e) <==> j == k {
      PartPicked(k, j, e, c);
    }
    SelectUniform(Part(j, c, clock), PartPick(k), j == k);
  }

  lemma SelectFour(p0: Log, p1: Log, p2: Log, p3: Log, pick: Pick)
    ensures Select(p0 + p1 + p2 + p3, pick) == Select(p0, pick) + Select(p1, pick) + Select(p2, pick) + Select(p3, pick)
  {
    SelectAppend(p0 + p1 + p2, p3, pick);
    SelectAppend(p0 + p1, p2, pick);
    SelectAppend(p0, p1, pick);
  }

  lemma OnlyOne(k: int, q0: Log, q1: Log, q2: Log, q3: Log, r: Log)
    requires 0 <= k < 4
    requires q0 == (if k == 0 then r else []) && q1 == (if k == 1 then r else [])
    requires q2 == (if k == 2 then r else []) && q3 == (if k == 3 then r else [])
    ensures q0 + q1 + q2 + q3 == r
  {
  }

  /** Each part of the log is what its own kind of events selects. */
  lemma SelectLegacy(c: Comment, clock: string, k: int)
    requires PlainRecord(c) && 0 <= k < 4
    ensures Select(LegacyEvents(c, clock), PartPick(k)) == Part(k, c, clock)
  {
    var pick := PartPick(k);
    LegacyIsParts(c, clock);
    SelectFour(Part(0, c, clock), Part(1, c, clock), Part(2, c, clock), Part(3, c, clock), pick);
    forall j | 0 <= j < 4 ensures Select(Part(j, c, clock), pick) == if j == k then Part(k, c, clock) else [] {
      SelectPart(c, clock, k, j);
    }
    OnlyOne(k, Select(Part(0, c, clock), pick), Select(Part(1, c, clock), pick),
            Select(Part(2, c, clock), pick), Select(Part(3, c, clock), pick), Part(k, c, clock));
  }

  lemma LegacyMembers(c: Comment, clock: string)
    requires PlainRecord(c)
    ensures Unnamed(LegacyEvents(c, clock)) && FiniteVersions(LegacyEvents(c, clock))
  {
    LegacyIsParts(c, clock);
    LegacyUnnamed(c, clock);
    PartEvents(0, c, clock);
    PartEvents(1, c, clock);
    PartEvents(2, c, clock);
    PartEvents(3, c, clock);
    var s := LegacyEvents(c, clock);
    forall i | 0 <= i < |s| ensures s[i].eid.NoEid? && IsFiniteVersion(s[i].atVersion) {
      assert s[i] in s;
      assert s[i] in Part(0, c, clock) || s[i] in Part(1, c, clock) || s[i] in Part(2, c, clock)
          || s[i] in Part(3, c, clock);
    }
  }

  /** Within the log only reactions and the single applied mark have computed ids. */
  lemma SameIdIn(a: CommentEvent, b: CommentEvent, k: int, j: int, c: Comment)
    requires PlainRecord(c) && 0 <= k < 4 && 0 <= j < 4 && PartEvent(k, a, c) && PartEvent(j, b, c)
    requires SameId(a, b)
    ensures k == j && (k == 1 || (k == 2 && a.emoji == b.emoji && a.user == b.user))
  {
    if k == 2 && j == 2 {
      KeyInjective(a.emoji, a.user, b.emoji, b.user);
    }
  }

  lemma NoSameIdPart(c: Comment, clock: string, k: int)
    requires PlainRecord(c) && 0 <= k < 4
    ensures NoSameId(Part(k, c, clock))
  {
    var s := Part(k, c, clock);
    PartEvents(k, c, clock);
    if k == 2 {
      SortedKeysAscend(c.legacy.reactions.Keys);
      KeyEventsOnce(ReactionAdded, "", c.legacy.reactions, SortedKeys(c.legacy.reactions.Keys), FlatVersion(c),
          FlatTime(c, clock));
    }
    forall i, j | 0 <= i < j < |s| ensures !SameId(s[i], s[j]) {
      assert s[i] in s && s[j] in s;
      if SameId(s[i], s[j]) {
        SameIdIn(s[i], s[j], k, k, c);
        assert false;
      }
    }
  }

  lemma NoSameIdAppend(s: Log, t: Log)
    requires NoSameId(s) && NoSameId(t)
    requires forall a, b :: a in s && b in t ==> !SameId(a, b)
    ensures NoSameId(s + t)
  {
    var u := s + t;
    forall i, j | 0 <= i < j < |u| ensures !SameId(u[i], u[j]) {
      if i < |s| <= j {
        assert u[i] in s && u[j] in t;
      }
    }
  }

  /** Parts 0 to k of the log. */
  ghost function Parts(k: nat, c: Comment, clock: string): Log {
    if k == 0 then Part(0, c, clock) else Parts(k - 1, c, clock) + Part(k, c, clock)
  }

  lemma {:induction false} PartsNoSameId(c: Comment, clock: string, k: nat)
    requires PlainRecord(c) && k < 4
    ensures NoSameId(Parts(k, c, clock))
    ensures forall e :: e in Parts(k, c, clock) ==> exists j :: 0 <= j <= k && PartEvent(j, e, c)
  {
    NoSameIdPart(c, clock, k);
    PartEvents(k, c, clock);
    if k > 0 {
      PartsNoSameId(c, clock, k - 1);
      var s, t := Parts(k - 1, c, clock), Part(k, c, clock);
      forall a, b | a in s && b in t ensures !SameId(a, b) {
        var j :| 0 <= j <= k - 1 && PartEvent(j, a, c);
        if SameId(a, b) {
          SameIdIn(a, b, j, k, c);
        }
      }
      NoSameIdAppend(s, t);
      forall e | e in Parts(k, c, clock) ensures exists j :: 0 <= j <= k && PartEvent(j, e, c) {
        if e in s {
          var j :| 0 <= j <= k - 1 && PartEvent(j, e, c);
        } else {
          assert PartEvent(k, e, c);
        }
      }
    }
  }

  lemma LegacyNoSameId(c: Comment, clock: string)
    requires PlainRecord(c)
    ensures NoSameId(LegacyEvents(c, clock))
  {
    LegacyIsParts(c, clock);
    PartsNoSameId(c, clock, 3);
    assert Parts(1, c, clock) == Part(0, c, clock) + Part(1, c, clock);
    assert Parts(2, c, clock) == Parts(1, c, clock) + Part(2, c, clock);
    assert Parts(3, c, clock) == LegacyEvents(c, clock);
  }

  /** The fold of the migrated events, and of one part of them, agree in what that part decides. */
  lemma PartDecides(c: Comment, d: Comment, clock: string, k: int)
    requires PlainRecord(c) && 0 <= k < 4
    ensures Agree(PartPick(k), FoldEvents(EmptyView(d), StableSort(LegacyEvents(c, clock))),
                  FoldEvents(EmptyView(d), StableSort(Part(k, c, clock))))
  {
    FoldAgrees(PartPick(k), EmptyView(d), StableSort(LegacyEvents(c, clock)));
    SelectSort(LegacyEvents(c, clock), PartPick(k));
    SelectLegacy(c, clock, k);
  }

  lemma SortConstant(s: Log, u: int)
    requires AllAt(s, u)
    ensures StableSort(s) == s
  {
    SortAppend([], s);
    InsertAllEnd([], s, u);
    assert [] + s == s;
  }

  lemma {:induction false} FoldAdditions(st: FoldView, s: Log)
    requires forall i :: 0 <= i < |s| ==> s[i].kind.ReactionAdded? && s[i].emoji != "" && s[i].user != ""
    ensures FoldEvents(st, s).snap.reactions == AddAll(st.snap.reactions, s)
  {
    if s != [] {
      FoldAdditions(st, s[..|s| - 1]);
    }
  }

  lemma ContentReturns(c: Comment, d: Comment, clock: string)
    requires PlainRecord(c)
    ensures var t := FoldEvents(EmptyView(d), StableSort(LegacyEvents(c, clock))).snap;
      t.anchor == c.legacy.anchor && t.text == OrElse(c.legacy.text, "")
  {
    PartDecides(c, d, clock, 0);
    SortConstant([CreatedSeed(c, clock)], FlatVersion(c));
    FoldSnoc(EmptyView(d), [], CreatedSeed(c, clock));
    assert [] + [CreatedSeed(c, clock)] == [CreatedSeed(c, clock)];
  }

  /** The state a record's status leaves in a fold. */
  predicate StatusOf(t: FoldView, c: Comment) {
    && !t.snap.deleted
    && if c.legacy.status == "applied" then
         t.snap.status == Applied && t.snap.appliedIn == Some(OrElse(c.legacy.appliedIn, FlatVersion(c)))
         && t.verdict == Some("applied")
       else t.snap.status == Open && t.snap.appliedIn == None && t.verdict == None
  }

  lemma StatusPart(c: Comment, d: Comment, clock: string)
    ensures StatusOf(FoldEvents(EmptyView(d), AppliedSeeds(c, clock)), c)
  {
    var a := AppliedSeeds(c, clock);
    if a != [] {
      FoldSnoc(EmptyView(d), [], a[0]);
      assert [] + [a[0]] == a;
    }
  }

  lemma StatusReturns(c: Comment, d: Comment, clock: string)
    requires PlainRecord(c)
    ensures StatusOf(FoldEvents(EmptyView(d), StableSort(LegacyEvents(c, clock))), c)
  {
    PartDecides(c, d, clock, 1);
    SortConstant(AppliedSeeds(c, clock), OrElse(c.legacy.appliedIn, FlatVersion(c)));
    StatusPart(c, d, clock);
  }

  lemma ParentReactionsReturn(c: Comment, d: Comment, clock: string)
    requires PlainRecord(c)
    ensures SameUsers(FoldEvents(EmptyView(d), StableSort(LegacyEvents(c, clock))).snap.reactions, c.legacy.reactions)
  {
    PartDecides(c, d, clock, 2);
    PartEvents(2, c, clock);
    var s := ReactionPart(c, clock);
    forall i | 0 <= i < |s|
      ensures s[i].atVersion == FlatVersion(c) && s[i].kind.ReactionAdded? && s[i].emoji != "" && s[i].user != ""
    {
      assert s[i] in Part(2, c, clock) && PartEvent(2, s[i], c);
    }
    SortConstant(s, FlatVersion(c));
    FoldAdditions(EmptyView(d), s);
    ReactionsReturn(ReactionAdded, "", c.legacy.reactions, FlatVersion(c), FlatTime(c, clock));
  }

  /** A folded reply carries what the flat one did. */
  predicate ReplyReturns(got: ReplySnapshot, r: LegacyReply, parentId: string, at: string) {
    && got.id == r.id && got.parentId == parentId && got.author == r.author && got.text == r.text
    && got.agentStatus == (if r.agentStatus == "" then None else Some(r.agentStatus))
    && got.created == ReplyTime(r, at) && !got.deleted
    && SameUsers(got.reactions, r.reactions)
  }

  predicate AllReturn(got: seq<ReplySnapshot>, want: seq<LegacyReply>, parentId: string, at: string) {
    |got| == |want| && forall i :: 0 <= i < |want| ==> ReplyReturns(got[i], want[i], parentId, at)
  }

  lemma ExpectedReturns(r: LegacyReply, parentId: string, v: int, at: string)
    requires PlainReactions(r.reactions)
    ensures ReplyReturns(ExpectedReply(r, parentId, v, at), r, parentId, at)
  {
    ReactionsReturn(ReplyReactionAdded, r.id, r.reactions, ReplyVersion(r, v), ReplyTime(r, at));
  }

  /** The replies of the fold of a log. */
  function RepliesOf(d: Comment, o: Log): seq<ReplySnapshot> {
    LiveReplies(FoldEvents(EmptyView(d), o).replyOrder, FoldEvents(EmptyView(d), o).replyById)
  }

  lemma RepliesPart(d: Comment, want: seq<LegacyReply>, v: int, at: string)
    requires PlainReplies(want, v)
    ensures AllReturn(RepliesOf(d, ReplyBlocks(want, v, at)), want, d.id, at)
  {
    BlocksFold(EmptyView(d), want, v, at);
    LiveOfExpected(want, FoldEvents(EmptyView(d), ReplyBlocks(want, v, at)).replyById, d.id, v, at);
    forall i | 0 <= i < |want| ensures ReplyReturns(ExpectedReply(want[i], d.id, v, at), want[i], d.id, at) {
      ExpectedReturns(want[i], d.id, v, at);
    }
  }

  lemma RepliesReturn(c: Comment, d: Comment, clock: string)
    requires PlainRecord(c) && d.id == c.id
    ensures AllReturn(RepliesOf(d, StableSort(LegacyEvents(c, clock))),
                      SortReplies(GoodReplies(c.legacy.replies), FlatVersion(c)), c.id, FlatTime(c, clock))
  {
    PartDecides(c, d, clock, 3);
    ReplyPartReturns(c, d, clock);
  }

  lemma SortedReplyPart(c: Comment, clock: string)
    ensures StableSort(ReplyPart(c, clock)) ==
      ReplyBlocks(SortReplies(GoodReplies(c.legacy.replies), FlatVersion(c)), FlatVersion(c), FlatTime(c, clock))
  {
    SortBlocks(GoodReplies(c.legacy.replies), FlatVersion(c), FlatTime(c, clock));
  }

  lemma ReplyPartReturns(c: Comment, d: Comment, clock: string)
    requires PlainRecord(c)
    ensures AllReturn(RepliesOf(d, StableSort(ReplyPart(c, clock))),
                      SortReplies(GoodReplies(c.legacy.replies), FlatVersion(c)), d.id, FlatTime(c, clock))
  {
    SortedReplyPart(c, clock);
    SortRepliesPlain(GoodReplies(c.legacy.replies), FlatVersion(c));
    RepliesPart(d, SortReplies(GoodReplies(c.legacy.replies), FlatVersion(c)), FlatVersion(c), FlatTime(c, clock));
  }

  lemma ToggleSameUsers(a: Reactions, b: Reactions, emoji: string, user: string)
    requires SameUsers(a, b)
    ensures SameUsers(Toggle(a, emoji, user, true), Toggle(b, emoji, user, true))
  {
  }

  /** Migrating a flat record keeps its meaning: the newest snapshot has the record's text, anchor and
      applied state, the same users under every emoji (and the agent's mark when applied), and its
      replies stable-sorted by version, each with its own fields and reactions. */
  lemma MigrationKeepsMeaning(c: Comment, clock: string, serial: nat)
    requires PlainRecord(c)
    ensures var snap := Snapshot(EnsureLog(c, clock, serial).0, VERSION_LATEST);
      var want := SortReplies(GoodReplies(c.legacy.replies), FlatVersion(c));
      var applied := c.legacy.status == "applied";
      && snap.Some?
      && snap.value.id == c.id && snap.value.author == c.author && snap.value.created == FlatTime(c, clock)
      && snap.value.createdIn == FlatVersion(c) && !snap.value.deleted
      && snap.value.anchor == c.legacy.anchor && snap.value.text == OrElse(c.legacy.text, "")
      && snap.value.status == (if applied then Applied else Open)
      && snap.value.appliedIn == (if applied then Some(OrElse(c.legacy.appliedIn, FlatVersion(c))) else None)
      && SameUsers(snap.value.reactions,
                   if applied then Toggle(c.legacy.reactions, VerdictEmoji("applied"), AGENT, true)
                   else c.legacy.reactions)
      && AllReturn(snap.value.replies, want, c.id, FlatTime(c, clock))
  {
    var d, s := EnsureLog(c, clock, serial).0, LegacyEvents(c, clock);
    LegacyMembers(c, clock);
    LegacyNoSameId(c, clock);
    LatestOfUnnamed(d, s, serial);
    ContentReturns(c, d, clock);
    StatusReturns(c, d, clock);
    ParentReactionsReturn(c, d, clock);
    RepliesReturn(c, d, clock);
    FoldKeepsIdentity(EmptyView(d), StableSort(s));
    ToggleSameUsers(FoldEvents(EmptyView(d), StableSort(s)).snap.reactions, c.legacy.reactions, VerdictEmoji("applied"),
        AGENT);
  }

  lemma StepKeepsIdentity(st: FoldView, e: CommentEvent)
    ensures var t := Step(st, e).snap;
      t.id == st.snap.id && t.author == st.snap.author && t.created == st.snap.created
          && t.createdIn == st.snap.createdIn
  {
    hide StepReply, Toggle;
  }

  lemma {:induction false} FoldKeepsIdentity(st: FoldView, s: Log)
    ensures var t := FoldEvents(st, s).snap;
      t.id == st.snap.id && t.author == st.snap.author && t.created == st.snap.created
          && t.createdIn == st.snap.createdIn
  {
    hide Step;
    if s != [] {
      FoldKeepsIdentity(st, s[..|s| - 1]);
      StepKeepsIdentity(FoldEvents(st, s[..|s| - 1]), s[|s| - 1]);
    }
  }

  // ---------------------------------------------------------------- the order of the replies

  function RepliesAt(rs: seq<LegacyReply>, v: int, u: int): seq<LegacyReply> {
    if rs == [] then []
    else RepliesAt(rs[..|rs| - 1], v, u) + (if ReplyVersion(rs[|rs| - 1], v) == u then [rs[|rs| - 1]] else [])
  }

  predicate RepliesSorted(rs: seq<LegacyReply>, v: int) {
    forall i, j :: 0 <= i < j < |rs| ==> ReplyVersion(rs[i], v) <= ReplyVersion(rs[j], v)
  }

  lemma RepliesAtSnoc(rs: seq<LegacyReply>, r: LegacyReply, v: int, u: int)
    ensures RepliesAt(rs + [r], v, u) == RepliesAt(rs, v, u) + (if ReplyVersion(r, v) == u then [r] else [])
  {
    assert (rs + [r])[..|rs|] == rs;
  }

  lemma {:induction false} InsertReplyStable(rs: seq<LegacyReply>, r: LegacyReply, v: int, u: int)
    ensures RepliesAt(InsertReply(rs, r, v), v, u) ==
      RepliesAt(rs, v, u) + (if ReplyVersion(r, v) == u then [r] else [])
  {
    if rs == [] || ReplyVersion(rs[|rs| - 1], v) <= ReplyVersion(r, v) {
      RepliesAtSnoc(rs, r, v, u);
    } else {
      var f, y := rs[..|rs| - 1], rs[|rs| - 1];
      InsertReplyStable(f, r, v, u);
      RepliesAtSnoc(InsertReply(f, r, v), y, v, u);
    }
  }

  lemma {:induction false} InsertReplySorted(rs: seq<LegacyReply>, r: LegacyReply, v: int)
    requires RepliesSorted(rs, v)
    ensures RepliesSorted(InsertReply(rs, r, v), v)
    ensures forall x :: x in InsertReply(rs, r, v) ==> x in rs || x == r
  {
    if !(rs == [] || ReplyVersion(rs[|rs| - 1], v) <= ReplyVersion(r, v)) {
      var f, y := rs[..|rs| - 1], rs[|rs| - 1];
      InsertReplySorted(f, r, v);
      var g := InsertReply(f, r, v);
      forall i | 0 <= i < |g| ensures ReplyVersion(g[i], v) <= ReplyVersion(y, v) {
        assert g[i] in f || g[i] == r;
      }
    }
  }

  /** The order of the replies is by version, and stable. */
  lemma {:induction false} SortRepliesStable(rs: seq<LegacyReply>, v: int, u: int)
    ensures RepliesSorted(SortReplies(rs, v), v)
    ensures RepliesAt(SortReplies(rs, v), v, u) == RepliesAt(rs, v, u)
  {
    if rs != [] {
      SortRepliesStable(rs[..|rs| - 1], v, u);
      InsertReplySorted(SortReplies(rs[..|rs| - 1], v), rs[|rs| - 1], v);
      InsertReplyStable(SortReplies(rs[..|rs| - 1], v), rs[|rs| - 1], v, u);
    }
  }
}
