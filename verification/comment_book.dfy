/** The comment list as the program changes it: each operation edits the list in place. A Go pointer
    into the slice is an index here. */
module CommentBookMachine {
  import opened CommentTypes
  import opened EventLog
  import opened LegacyMigration
  import opened FoldMachine
  import CommentFold
  import CommentOps

  type Book = CommentOps.Book
  type Host = CommentOps.Host
  type CommentOp = CommentOps.CommentOp
  type OpResult = CommentOps.OpResult

  // ---------------------------------------------------------------- migrating one record

  method AppendUsers(events: Log, kind: EventKind, replyId: string, emoji: string, users: seq<string>, v: int,
                     at: string)
    returns (out: Log)
    ensures out == events + UserEvents(kind, replyId, emoji, users, v, at)
  {
    out := events;
    var j := 0;
    while j < |users|
      invariant 0 <= j <= |users|
      invariant out == events + UserEvents(kind, replyId, emoji, users[..j], v, at)
    {
      assert UserEvents(kind, replyId, emoji, users[..j + 1], v, at) ==
        UserEvents(kind, replyId, emoji, users[..j], v, at) + [ReactionSeed(kind, replyId, emoji, users[j], v, at)];
      out := out + [ReactionSeed(kind, replyId, emoji, users[j], v, at)];
      j := j + 1;
    }
    assert users[..j] == users;
  }

  method LegacyReactionEvents(kind: EventKind, replyId: string, reactions: Reactions, v: int, at: string)
    returns (out: Log)
    ensures out == ReactionEvents(kind, replyId, reactions, v, at)
  {
    out := [];
    var keys := SortedKeys(reactions.Keys);
    var i := 0;
    while i < |keys|
      invariant 0 <= i <= |keys|
      invariant out == KeyEvents(kind, replyId, reactions, keys[..i], v, at)
    {
      assert keys[..i + 1][..i] == keys[..i];
      out := AppendUsers(out, kind, replyId, keys[i], reactions[keys[i]], v, at);
      i := i + 1;
    }
    assert keys[..i] == keys;
  }

  method AppendLegacyReply(events: Log, r: LegacyReply, v: int, at: string) returns (out: Log)
    ensures out == events + ReplyBlock(r, v, at)
  {
    var more := LegacyReactionEvents(ReplyReactionAdded, r.id, r.reactions, ReplyVersion(r, v), ReplyTime(r, at));
    out := events + ([ReplyAddedSeed(r, v, at)] + more);
  }

  lemma GoodRepliesStep(raw: seq<Option<LegacyReply>>, i: nat, v: int, at: string)
    requires i < |raw|
    ensures ReplyBlocks(GoodReplies(raw[..i + 1]), v, at) ==
      if raw[i].Some? && raw[i].value.id != "" then
        ReplyBlocks(GoodReplies(raw[..i]), v, at) + ReplyBlock(raw[i].value, v, at)
      else ReplyBlocks(GoodReplies(raw[..i]), v, at)
  {
    assert raw[..i + 1][..i] == raw[..i];
    var good := GoodReplies(raw[..i]);
    if raw[i].Some? && raw[i].value.id != "" {
      assert GoodReplies(raw[..i + 1]) == good + [raw[i].value];
      assert (good + [raw[i].value])[..|good|] == good;
    } else {
      assert GoodReplies(raw[..i + 1]) == good;
    }
  }

  lemma Regroup(a: Log, b: Log, c: Log)
    ensures a + b + c == a + (b + c)
  {
  }

  method AppendLegacyReplies(events: Log, replies: seq<Option<LegacyReply>>, v: int, at: string) returns (out: Log)
    ensures out == events + ReplyBlocks(GoodReplies(replies), v, at)
  {
    out := events;
    ghost var done: Log := [];
    var i := 0;
    while i < |replies|
      invariant 0 <= i <= |replies|
      invariant done == ReplyBlocks(GoodReplies(replies[..i]), v, at)
      invariant out == events + done
    {
      GoodRepliesStep(replies, i, v, at);
      var raw := replies[i];
      i := i + 1;
      if raw.None? || raw.value.id == "" {
        continue;
      }
      out := AppendLegacyReply(out, raw.value, v, at);
      Regroup(events, done, ReplyBlock(raw.value, v, at));
      done := done + ReplyBlock(raw.value, v, at);
    }
    assert replies[..i] == replies;
  }

  method LegacyToEvents(c: Comment, clock: string) returns (events: Log)
    ensures events == LegacyEvents(c, clock)
  {
    hide ReactionEvents, ReplyBlocks, GoodReplies;
    var at := if c.created == "" then clock else c.created;
    var v := OrElse(c.legacy.version, 1);
    events := [CreatedSeed(c, clock)];
    if c.legacy.status == "applied" {
      var appliedIn := OrElse(c.legacy.appliedIn, v);
      events := events + [BlankEvent(MarkedApplied, appliedIn, at).(
                            appliedIn := Some(appliedIn), user := "odoc-agent", agentStatus := "applied")];
    }
    var reactions := LegacyReactionEvents(ReactionAdded, "", c.legacy.reactions, v, at);
    events := AppendLegacyReplies(events + reactions, c.legacy.replies, v, at);
  }

  // ---------------------------------------------------------------- searches

  method FindById(list: seq<Comment>, id: string) returns (i: nat)
    ensures i == CommentOps.FindById(list, id)
  {
    i := 0;
    while i < |list|
      invariant 0 <= i <= |list|
      invariant forall j :: 0 <= j < i ==> list[j].id != id
    {
      if list[i].id == id {
        return;
      }
      i := i + 1;
    }
  }

  method FindHost(list: seq<Comment>, id: string) returns (h: Host)
    ensures h == CommentOps.FindHost(list, id)
  {
    var i := FindById(list, id);
    if i < |list| {
      return CommentOps.CommentHost(i);
    }
    i := 0;
    while i < |list|
      invariant 0 <= i <= |list|
      invariant forall k :: 0 <= k < i ==> !CommentOps.HasReply(CommentOps.Events(list[k]), id)
    {
      var events := OrElse(list[i].events, []);
      var j := 0;
      while j < |events|
        invariant 0 <= j <= |events|
        invariant forall k :: 0 <= k < j ==> !CommentOps.AddsReply(events[k], id)
      {
        var e := events[j];
        if e.kind.ReplyAdded? && e.reply.Some? && e.reply.value.id == id {
          assert CommentOps.AddsReply(events[j], id);
          return CommentOps.ReplyHost(i);
        }
        j := j + 1;
      }
      i := i + 1;
    }
    h := CommentOps.NoHost;
  }

  method ReactionsOf(snap: CommentSnapshot, replyId: string) returns (r: Reactions)
    ensures r == CommentOps.ReactionsOf(snap, replyId)
  {
    if replyId == "" {
      return snap.reactions;
    }
    var i := 0;
    while i < |snap.replies|
      invariant 0 <= i <= |snap.replies|
      invariant forall j :: 0 <= j < i ==> snap.replies[j].id != replyId
    {
      if snap.replies[i].id == replyId {
        return snap.replies[i].reactions;
      }
      i := i + 1;
    }
    r := map[];
  }

  method FindRebindAid(a: Anchor, aids: seq<StampedArtifact>) returns (aid: string)
    ensures aid == CommentOps.RebindAid(a, aids)
  {
    hide CommentOps.TagFits, CommentOps.HeadingFits;
    var matches: seq<StampedArtifact> := [];
    var i := 0;
    while i < |aids|
      invariant 0 <= i <= |aids|
      invariant matches == CommentOps.Fitting(a, aids[..i], true)
    {
      assert aids[..i + 1][..i] == aids[..i];
      if CommentOps.TagFits(a, aids[i]) && CommentOps.HeadingFits(a, aids[i]) {
        matches := matches + [aids[i]];
      }
      i := i + 1;
    }
    assert aids[..i] == aids;
    if |matches| == 1 {
      return matches[0].aid;
    }
    if |matches| == 0 {
      var tagOnly: seq<StampedArtifact> := [];
      i := 0;
      while i < |aids|
        invariant 0 <= i <= |aids|
        invariant tagOnly == CommentOps.Fitting(a, aids[..i], false)
      {
        assert aids[..i + 1][..i] == aids[..i];
        if CommentOps.TagFits(a, aids[i]) {
          tagOnly := tagOnly + [aids[i]];
        }
        i := i + 1;
      }
      assert aids[..i] == aids;
      if |tagOnly| == 1 {
        return tagOnly[0].aid;
      }
    }
    aid := "";
  }

  // ---------------------------------------------------------------- the list

  /** A pass over the first i comments, before the rest is reached. */
  function PassedTo(b: Book, pass: CommentOps.Pass, i: nat): Book
    requires i <= |b.list|
  {
    var p := CommentOps.Each(CommentOps.Book(b.list[..i], b.serial), pass);
    CommentOps.Book(p.list + b.list[i..], p.serial)
  }

  lemma PassedStep(b: Book, pass: CommentOps.Pass, i: nat)
    requires i < |b.list|
    ensures var p := PassedTo(b, pass, i);
      var (c, n) := CommentOps.Apply(pass, b.list[i], p.serial);
      p.list[i] == b.list[i] && PassedTo(b, pass, i + 1) == CommentOps.Book(p.list[i := c], n)
  {
    hide CommentOps.Apply;
    assert b.list[..i + 1][..i] == b.list[..i];
  }

  lemma PassedAll(b: Book, pass: CommentOps.Pass)
    ensures PassedTo(b, pass, 0) == b && PassedTo(b, pass, |b.list|) == CommentOps.Each(b, pass)
  {
    assert b.list[..|b.list|] == b.list;
  }

  class CommentBook {
    var list: seq<Comment>
    var serial: nat

    function View(): Book
      reads this
    {
      CommentOps.Book(list, serial)
    }

    constructor (stored: seq<Comment>, next: nat)
      ensures View() == CommentOps.Book(stored, next)
    {
      list, serial := stored, next;
    }

    method AppendEvent(i: nat, e: CommentEvent)
      requires i < |list|
      modifies this
      ensures View() == CommentOps.AppendAt(old(View()), i, e)
    {
      var stamped := e;
      if e.eid.NoEid? {
        stamped := e.(eid := EventEid(e, serial));
        if NeedsSerial(e) {
          serial := serial + 1;
        }
      }
      list := list[i := list[i].(events := Some(OrElse(list[i].events, []) + [stamped]))];
    }

    method EnsureEventLog(i: nat, clock: string) returns (changed: bool)
      requires i < |list|
      modifies this
      ensures var (c, n) := EnsureLog(old(list)[i], clock, old(serial));
        View() == CommentOps.Book(old(list)[i := c], n)
      ensures !changed ==> View() == old(View())
    {
      var c := list[i];
      if c.events.Some? {
        var events, next, any := BackfillEids(c.events.value, serial);
        if !any {
          BackfillStamped(c.events.value, serial);
        }
        list, serial := list[i := c.(events := Some(events))], next;
        return any;
      }
      if c.id == "" {
        return false;
      }
      var seeds := LegacyToEvents(c, clock);
      var events, next, _ := BackfillEids(seeds, serial);
      c := c.(events := Some(events), createdIn := events[0].atVersion);
      if c.created == "" {
        c := c.(created := events[0].at);
      }
      list, serial := list[i := c], next;
      changed := true;
    }

    method EnsureMigrated(clock: string)
      modifies this
      ensures View() == CommentOps.Migrate(old(View()), clock)
    {
      ghost var b, pass := View(), CommentOps.MigratePass(clock);
      PassedAll(b, pass);
      var i := 0;
      while i < |list|
        invariant 0 <= i <= |list| == |b.list|
        invariant View() == PassedTo(b, pass, i)
      {
        PassedStep(b, pass, i);
        var _ := EnsureEventLog(i, clock);
        i := i + 1;
      }
    }

    method ReconcileComment(i: nat, aids: seq<StampedArtifact>, byAid: set<string>, version: int, at: string)
      requires i < |list|
      requires byAid == set x | x in aids :: x.aid
      modifies this
      ensures var (c, n) := CommentOps.ReconcileOne(old(list)[i], aids, version, at, old(serial));
        View() == CommentOps.Book(old(list)[i := c], n)
    {
      var snap := SnapshotAt(list[i], OrElse(list[i].events, []), version);
      assert list[i := list[i]] == list;
      if snap.None? || snap.value.deleted || snap.value.anchor.None? {
        return;
      }
      var a := snap.value.anchor.value;
      if !a.kind.ElementAnchor? && !a.kind.LostAnchor? {
        return;
      }
      var aid := CommentOps.KnownAid(a);
      if aid != "" && aid in byAid {
        return;
      }
      var rebind := FindRebindAid(a, aids);
      if rebind != "" {
        AppendEvent(i, CommentOps.ReconcileEvent(CommentOps.ReboundAnchor(a, rebind), version, at));
      } else if !a.kind.LostAnchor? {
        AppendEvent(i, CommentOps.ReconcileEvent(CommentOps.LostFrom(a), version, at));
      }
    }

    method ReconcileAnchors(aids: seq<StampedArtifact>, v: int, clock: string)
      modifies this
      ensures View() == CommentOps.Reconcile(old(View()), aids, v, clock)
    {
      EnsureMigrated(clock);
      ReconcileMigrated(aids, if v == 0 then 1 else v, clock);
    }

    method ReconcileMigrated(aids: seq<StampedArtifact>, version: int, at: string)
      modifies this
      ensures View() == CommentOps.Each(old(View()), CommentOps.ReconcilePass(aids, version, at))
    {
      var byAid := set x | x in aids :: x.aid;
      ghost var b, pass := View(), CommentOps.ReconcilePass(aids, version, at);
      PassedAll(b, pass);
      var i := 0;
      while i < |list|
        invariant 0 <= i <= |list| == |b.list|
        invariant View() == PassedTo(b, pass, i)
      {
        PassedStep(b, pass, i);
        ReconcileComment(i, aids, byAid, version, at);
        i := i + 1;
      }
    }

    method CompactComment(i: nat) returns (changed: bool)
      requires i < |list|
      modifies this
      ensures var (c, n) := CommentOps.Compact(old(list)[i], old(serial));
        View() == CommentOps.Book(old(list)[i := c], n)
    {
      changed := false;
      var c := list[i];
      if c.events.None? {
        assert list[i := c] == list;
        return;
      }
      var events, next, _ := BackfillEids(c.events.value, serial);
      var compacted := DedupEvents(events);
      if |compacted| != |events| {
        events := compacted;
        changed := true;
      }
      list, serial := list[i := c.(events := Some(events))], next;
    }

    method CompactComments() returns (changed: bool)
      modifies this
      ensures View() == CommentOps.CompactAll(old(View()))
    {
      hide CommentOps.Compact, CommentOps.Each, PassedTo;
      ghost var b, pass := View(), CommentOps.CompactPass;
      PassedAll(b, pass);
      changed := false;
      var i := 0;
      while i < |list|
        invariant 0 <= i <= |list| == |b.list|
        invariant View() == PassedTo(b, pass, i)
      {
        PassedStep(b, pass, i);
        var one := CompactComment(i);
        changed := changed || one;
        i := i + 1;
      }
    }

    // -------------------------------------------------------------- operations on a migrated list

    method Create(op: CommentOp, at: string) returns (res: OpResult)
      requires op.CreateOp?
      modifies this
      ensures (View(), res) == CommentOps.Create(old(View()), op, at)
    {
      var e := BlankEvent(Created, op.version, at).(anchor := op.anchor, text := op.text);
      var entry := Comment(op.id, op.author, at, op.version, Some([e.(eid := OneShotEid(serial))]),
                           LegacyFields(None, None, None, "", None, [], map[]));
      serial := serial + 1;
      list := list + [entry];
      var snap := SnapshotAt(entry, entry.events.value, op.version);
      res := CommentOps.Done(CommentOps.SnapshotBody(snap));
    }

    method Reply(op: CommentOp, at: string) returns (res: OpResult)
      requires op.ReplyOp?
      modifies this
      ensures (View(), res) == CommentOps.Reply(old(View()), op, at)
    {
      var i := FindById(list, op.parentId);
      if i == |list| {
        return CommentOps.NotFound("parent_not_found");
      }
      AppendEvent(i, BlankEvent(ReplyAdded, op.version, at).(
                       reply := Some(ReplySeed(op.replyId, op.author, op.text, ""))));
      res := CommentOps.Done(CommentOps.ReplyBody(op.replyId, op.parentId, op.author, op.text, at, op.version));
    }

    method PatchAnchor(op: CommentOp, at: string) returns (res: OpResult)
      requires op.PatchAnchorOp?
      modifies this
      ensures (View(), res) == CommentOps.PatchAnchor(old(View()), op, at)
    {
      var i := FindById(list, op.id);
      if i == |list| {
        return CommentOps.NotFound("not_found");
      }
      AppendEvent(i, BlankEvent(AnchorChanged, op.version, at).(
                       resetStatus := Some(op.resetStatus), anchor := op.anchor, user := op.actor));
      var snap := SnapshotAt(list[i], OrElse(list[i].events, []), op.version);
      res := CommentOps.Done(CommentOps.SnapshotBody(snap));
    }

    method React(op: CommentOp, at: string) returns (res: OpResult)
      requires op.ReactOp?
      modifies this
      ensures (View(), res) == CommentOps.React(old(View()), op, at)
    {
      var h := FindHost(list, op.id);
      if h.NoHost? {
        return CommentOps.NotFound("not_found");
      }
      var replyId := if h.ReplyHost? then op.id else "";
      var snap := SnapshotAt(list[h.index], OrElse(list[h.index].events, []), op.version);
      if snap.None? {
        return CommentOps.NotFound("not_visible_at_version");
      }
      var reactions := ReactionsOf(snap.value, replyId);
      var idx := IndexOf(if op.emoji in reactions then reactions[op.emoji] else [], op.user);
      var had := idx >= 0;
      AppendEvent(h.index, CommentOps.ReactEvent(replyId, had, op, at));
      var after := SnapshotAt(list[h.index], OrElse(list[h.index].events, []), op.version);
      if after.Some? {
        reactions := ReactionsOf(after.value, replyId);
      } else {
        reactions := map[];
      }
      res := CommentOps.Done(CommentOps.ReactionsBody(reactions));
    }

    method Delete(op: CommentOp, at: string) returns (res: OpResult)
      requires op.DeleteOp?
      modifies this
      ensures (View(), res) == CommentOps.Delete(old(View()), op, at)
    {
      var h := FindHost(list, op.id);
      if h.NoHost? {
        return CommentOps.NotFound("not_found");
      }
      if h.ReplyHost? {
        AppendEvent(h.index, BlankEvent(ReplyDeleted, op.version, at).(replyId := op.id, user := op.actor));
      } else {
        AppendEvent(h.index, BlankEvent(Deleted, op.version, at).(user := op.actor));
      }
      res := CommentOps.Done(CommentOps.OkBody);
    }

    method RawEvents(op: CommentOp) returns (res: OpResult)
      requires op.RawEventsOp?
      modifies this
      ensures (View(), res) == CommentOps.RawEvents(old(View()), op)
    {
      var i := FindById(list, op.id);
      if i == |list| {
        return CommentOps.NotFound("not_found");
      }
      ghost var b := View();
      assert list[i := list[i]] == list;
      var k := 0;
      while k < |op.events|
        invariant 0 <= k <= |op.events|
        invariant var (c, n) := CommentOps.AppendAll(b.list[i], op.events[..k], b.serial);
          View() == CommentOps.Book(b.list[i := c], n)
      {
        assert op.events[..k + 1][..k] == op.events[..k];
        AppendEvent(i, op.events[k]);
        k := k + 1;
      }
      assert op.events[..k] == op.events;
      res := CommentOps.Done(CommentOps.OkBody);
    }

    /** The local comments whose id the list does not hold yet, migrated and put at its end. */
    method MergeLocal(local: seq<Comment>, clock: string) returns (merged: nat)
      modifies this
      ensures View() == CommentOps.MergeLocal(old(View()), local, clock)
      ensures merged == |list| - |old(list)|
    {
      ghost var b := View();
      merged := 0;
      var have := IdsOf(list);
      var i := 0;
      while i < |local|
        invariant 0 <= i <= |local|
        invariant View() == CommentOps.MergeLocal(b, local[..i], clock)
        invariant have == IdsOf(list)
        invariant merged == |list| - |b.list|
      {
        assert local[..i + 1][..i] == local[..i];
        var lc := local[i];
        i := i + 1;
        if lc.id == "" {
          continue;
        }
        KnownId(list, lc.id);
        if lc.id in have {
          continue;
        }
        AddComment(lc, clock);
        have := have + {lc.id};
        merged := merged + 1;
      }
      assert local[..i] == local;
    }

    method AddComment(lc: Comment, clock: string)
      requires lc.id != ""
      modifies this
      ensures var (c, n) := EnsureLog(lc, clock, old(serial));
        View() == CommentOps.Book(old(list) + [c], n)
      ensures IdsOf(list) == IdsOf(old(list)) + {lc.id}
    {
      list := list + [lc];
      var _ := EnsureEventLog(|list| - 1, clock);
      IdsOfSnoc(old(list), list[|list| - 1]);
    }

    method PublishMerge(op: CommentOp, clock: string) returns (res: OpResult)
      requires op.PublishMergeOp?
      modifies this
      ensures (View(), res) == CommentOps.PublishMerge(old(View()), op, clock)
    {
      var merged := MergeLocal(op.local, clock);
      if |list| > 0 {
        ReconcileAnchors(op.aids, op.version, clock);
        var _ := CompactComments();
      }
      res := CommentOps.Done(CommentOps.MergedBody(merged));
    }

    /** ApplyCommentOp: migrate, then run the operation of the given kind. */
    method ApplyCommentOp(op: CommentOp, at: string, clock: string) returns (res: OpResult)
      modifies this
      ensures (View(), res) == CommentOps.ApplyOp(old(View()), op, at, clock)
    {
      EnsureMigrated(clock);
      match op {
        case CreateOp(_, _, _, _, _) => res := Create(op, at);
        case ReplyOp(_, _, _, _, _) => res := Reply(op, at);
        case PatchAnchorOp(_, _, _, _, _) => res := PatchAnchor(op, at);
        case ReactOp(_, _, _, _) => res := React(op, at);
        case DeleteOp(_, _, _) => res := Delete(op, at);
        case RawEventsOp(_, _) => res := RawEvents(op);
        case WipeOp => res := CommentOps.OpResult(200, CommentOps.WipedBody(|list|), true);
        case PublishMergeOp(_, _, _) => res := PublishMerge(op, clock);
        case UnknownOp => res := CommentOps.OpResult(400, CommentOps.ErrorBody("unknown_op"), false);
      }
    }
  }

  /** The non-empty ids of a list. */
  function IdsOf(list: seq<Comment>): set<string> {
    set c | c in list && c.id != "" :: c.id
  }

  lemma IdsOfSnoc(list: seq<Comment>, c: Comment)
    requires c.id != ""
    ensures IdsOf(list + [c]) == IdsOf(list) + {c.id}
  {
    forall id ensures id in IdsOf(list + [c]) <==> id in IdsOf(list) || id == c.id {
      if id == c.id {
        assert c in list + [c];
      }
    }
  }

  lemma KnownId(list: seq<Comment>, id: string)
    requires id != ""
    ensures id in IdsOf(list) <==> CommentOps.FindById(list, id) < |list|
  {
    var i := CommentOps.FindById(list, id);
    if i < |list| {
      assert list[i] in list;
    }
    if c :| c in list && c.id == id {
      var k :| 0 <= k < |list| && list[k] == c;
    }
  }
}
