/** Runs of comment operations as the service persists them, and what survives a whole run. */
module CommentRuns {
  import opened CommentTypes
  import opened EventLog
  import opened CommentFold
  import opened LegacyMigration
  import opened CommentOps

  // ---------------------------------------------------------------- well-formed ids

  /** An id that EventEID could have given this event, with one-shot numbers below serial. */
  predicate GoodEid(e: CommentEvent, serial: nat) {
    match e.eid
    case NoEid => true
    case ReactionEid(added, key) => IsReaction(e.kind) && added == e.kind.ReactionAdded?
        && key == e.emoji + ":" + e.user
    case StateEid(flag, n) => IsStateFlag(e.kind) && flag == e.kind && n == e.atVersion
    case OneShotEid(n) => n < serial && !IsReaction(e.kind) && !IsStateFlag(e.kind)
  }

  predicate GoodLog(s: Log, serial: nat) {
    forall i :: 0 <= i < |s| ==> GoodEid(s[i], serial)
  }

  lemma {:induction false} BackfillGood(s: Log, serial: nat)
    requires GoodLog(s, serial)
    ensures GoodLog(Backfill(s, serial), NextSerial(s, serial))
  {
    if s != [] {
      BackfillGood(s[..|s| - 1], serial);
    }
  }

  lemma {:induction false} DedupMembers(s: Log)
    ensures forall e :: e in Dedup(s) ==> e in s
  {
    if s != [] {
      var t, x := s[..|s| - 1], s[|s| - 1];
      DedupMembers(t);
      assert forall e :: e in Upsert(Dedup(t), x) ==> e in Dedup(t) || e == x;
      assert forall e :: e in t ==> e in s;
    }
  }

  lemma DedupGood(s: Log, serial: nat)
    requires GoodLog(s, serial)
    ensures GoodLog(Dedup(s), serial)
  {
    DedupMembers(s);
    forall i | 0 <= i < |Dedup(s)| ensures GoodEid(Dedup(s)[i], serial) {
      assert Dedup(s)[i] in s;
    }
  }

  lemma {:induction false} DedupKeepsUnnamed(s: Log, e: CommentEvent)
    requires e in s && e.eid.NoEid?
    ensures e in Dedup(s)
  {
    var t, x := s[..|s| - 1], s[|s| - 1];
    if e != x {
      DedupKeepsUnnamed(t, e);
      var d := Dedup(t);
      var k :| 0 <= k < |d| && d[k] == e;
      assert Upsert(d, x)[k] == e;
    } else {
      assert Upsert(Dedup(t), x)[|Dedup(t)|] == e;
    }
  }

  // ---------------------------------------------------------------- deletion

  /** A deletion a reader of version v sees in the log. */
  predicate DeletedIn(s: Log, v: int) {
    exists i :: 0 <= i < |s| && s[i].kind.Deleted? && Visible(s[i], v)
  }

  lemma DeletionSurvivesDedup(s: Log, serial: nat, v: int)
    requires GoodLog(s, serial) && DeletedIn(s, v)
    ensures DeletedIn(Dedup(s), v)
  {
    var i :| 0 <= i < |s| && s[i].kind.Deleted? && Visible(s[i], v);
    var d := Dedup(s);
    if s[i].eid.NoEid? {
      DedupKeepsUnnamed(s, s[i]);
      var k :| 0 <= k < |d| && d[k] == s[i];
    } else {
      assert HasEid(s, s[i].eid);
      DedupEids(s, s[i].eid);
      var k :| 0 <= k < |d| && d[k].eid == s[i].eid;
      DedupGood(s, serial);
      assert GoodEid(d[k], serial);
    }
  }

  lemma {:induction false} FoldDeleted(st: FoldView, s: Log)
    ensures FoldEvents(st, s).snap.deleted <==> st.snap.deleted || exists i :: 0 <= i < |s| && s[i].kind.Deleted?
  {
    if s != [] {
      FoldDeleted(st, s[..|s| - 1]);
    }
  }

  /** A snapshot is deleted exactly when its log holds a deletion at its version or before. */
  lemma DeletedExactly(c: Comment, s: Log, serial: nat, v: int)
    requires GoodLog(s, serial)
    ensures SnapshotOf(c, s, v).Some? ==> (SnapshotOf(c, s, v).value.deleted <==> DeletedIn(s, ReadAt(v)))
  {
    var at := ReadAt(v);
    var seen := VisibleAt(Ordered(s), at);
    FoldDeleted(EmptyView(c), seen);
    if i :| 0 <= i < |seen| && seen[i].kind.Deleted? {
      ReadersSee(s, at, seen[i]);
      DedupMembers(s);
      var k :| 0 <= k < |s| && s[k] == seen[i];
    }
    if DeletedIn(s, at) {
      DeletionSurvivesDedup(s, serial, at);
      var k :| 0 <= k < |Dedup(s)| && Dedup(s)[k].kind.Deleted? && Visible(Dedup(s)[k], at);
      ReadersSee(s, at, Dedup(s)[k]);
    }
  }

  /** d is c some operations later: same identity, no deletion forgotten. */
  ghost predicate Remembers(c: Comment, d: Comment) {
    c.id == d.id && forall v :: DeletedIn(Events(c), v) ==> DeletedIn(Events(d), v)
  }

  lemma EnsureLogRemembers(c: Comment, clock: string, serial: nat)
    requires GoodLog(Events(c), serial)
    ensures Remembers(c, EnsureLog(c, clock, serial).0)
    ensures GoodLog(Events(EnsureLog(c, clock, serial).0), EnsureLog(c, clock, serial).1)
  {
    var d := EnsureLog(c, clock, serial).0;
    if c.events.Some? {
      BackfillGood(c.events.value, serial);
      forall v | DeletedIn(Events(c), v) ensures DeletedIn(Events(d), v) {
        var i :| 0 <= i < |Events(c)| && Events(c)[i].kind.Deleted? && Visible(Events(c)[i], v);
        assert Events(d)[i].kind.Deleted? && Visible(Events(d)[i], v);
      }
    } else if c.id != "" {
      var s := LegacyEvents(c, clock);
      LegacyUnnamed(c, clock);
      BackfillGood(s, serial);
    }
  }

  lemma {:induction false} KeyEventsUnnamed(kind: EventKind, replyId: string, r: Reactions, keys: seq<string>, v: int,
                                            at: string)
    requires forall k :: k in keys ==> k in r
    ensures forall e :: e in KeyEvents(kind, replyId, r, keys, v, at) ==> e.eid.NoEid?
  {
    if keys != [] {
      KeyEventsUnnamed(kind, replyId, r, keys[..|keys| - 1], v, at);
    }
  }

  lemma {:induction false} ReplyBlocksUnnamed(replies: seq<LegacyReply>, v: int, at: string)
    ensures forall e :: e in ReplyBlocks(replies, v, at) ==> e.eid.NoEid?
  {
    if replies != [] {
      ReplyBlocksUnnamed(replies[..|replies| - 1], v, at);
      var r := replies[|replies| - 1];
      KeyEventsUnnamed(ReplyReactionAdded, r.id, r.reactions, SortedKeys(r.reactions.Keys), ReplyVersion(r, v),
          ReplyTime(r, at));
    }
  }

  lemma LegacyUnnamed(c: Comment, clock: string)
    ensures forall e :: e in LegacyEvents(c, clock) ==> e.eid.NoEid?
  {
    KeyEventsUnnamed(ReactionAdded, "", c.legacy.reactions, SortedKeys(c.legacy.reactions.Keys), FlatVersion(c),
        FlatTime(c, clock));
    ReplyBlocksUnnamed(GoodReplies(c.legacy.replies), FlatVersion(c), FlatTime(c, clock));
  }

  lemma AppendRemembers(c: Comment, e: CommentEvent, serial: nat)
    requires GoodLog(Events(c), serial) && GoodEid(e, serial)
    ensures Remembers(c, Append(c, e, serial).0)
    ensures GoodLog(Events(Append(c, e, serial).0), Append(c, e, serial).1)
  {
    var s, t := Events(c), Events(Append(c, e, serial).0);
    forall v | DeletedIn(s, v) ensures DeletedIn(t, v) {
      var i :| 0 <= i < |s| && s[i].kind.Deleted? && Visible(s[i], v);
      assert t[i] == s[i];
    }
  }

  lemma {:induction false} AppendAllRemembers(c: Comment, s: Log, serial: nat)
    requires GoodLog(Events(c), serial) && (forall i :: 0 <= i < |s| ==> s[i].eid.NoEid?)
    ensures Remembers(c, AppendAll(c, s, serial).0) && serial <= AppendAll(c, s, serial).1
    ensures GoodLog(Events(AppendAll(c, s, serial).0), AppendAll(c, s, serial).1)
  {
    if s != [] {
      AppendAllRemembers(c, s[..|s| - 1], serial);
      var (d, n) := AppendAll(c, s[..|s| - 1], serial);
      AppendRemembers(d, s[|s| - 1], n);
    }
  }

  lemma CompactRemembers(c: Comment, serial: nat)
    requires GoodLog(Events(c), serial)
    ensures Remembers(c, Compact(c, serial).0)
    ensures GoodLog(Events(Compact(c, serial).0), Compact(c, serial).1)
  {
    if c.events.Some? {
      var s := Backfill(c.events.value, serial);
      var n := NextSerial(c.events.value, serial);
      EnsureLogRemembers(c, "", serial);
      DedupGood(s, n);
      forall v | DeletedIn(s, v) ensures DeletedIn(Dedup(s), v) {
        DeletionSurvivesDedup(s, n, v);
      }
    }
  }

  lemma ReconcileRemembers(c: Comment, aids: seq<StampedArtifact>, version: int, at: string, serial: nat)
    requires GoodLog(Events(c), serial)
    ensures Remembers(c, ReconcileOne(c, aids, version, at, serial).0)
    ensures GoodLog(Events(ReconcileOne(c, aids, version, at, serial).0), ReconcileOne(c, aids, version, at, serial).1)
  {
    var a := Correction(c, aids, version);
    if a.Some? {
      AppendRemembers(c, ReconcileEvent(a.value, version, at), serial);
    }
  }

  // ---------------------------------------------------------------- lists

  ghost predicate GoodBook(b: Book) {
    forall i :: 0 <= i < |b.list| ==> GoodLog(Events(b.list[i]), b.serial)
  }

  ghost predicate RemembersAll(a: seq<Comment>, b: seq<Comment>) {
    |a| <= |b| && forall i :: 0 <= i < |a| ==> Remembers(a[i], b[i])
  }

  lemma RemembersTransitive(a: seq<Comment>, b: seq<Comment>, c: seq<Comment>)
    requires RemembersAll(a, b) && RemembersAll(b, c)
    ensures RemembersAll(a, c)
  {
    forall i | 0 <= i < |a| ensures Remembers(a[i], c[i]) {
      assert Remembers(a[i], b[i]) && Remembers(b[i], c[i]);
    }
  }

  lemma PassRemembers(pass: Pass, c: Comment, serial: nat)
    requires GoodLog(Events(c), serial)
    ensures var (d, n) := Apply(pass, c, serial); Remembers(c, d) && GoodLog(Events(d), n)
  {
    match pass
    case MigratePass(clock) => EnsureLogRemembers(c, clock, serial);
    case ReconcilePass(aids, version, at) => ReconcileRemembers(c, aids, version, at, serial);
    case CompactPass => CompactRemembers(c, serial);
  }

  lemma GoodLogGrows(s: Log, m: nat, n: nat)
    requires GoodLog(s, m) && m <= n
    ensures GoodLog(s, n)
  {
    forall i | 0 <= i < |s| ensures GoodEid(s[i], n) {
      assert GoodEid(s[i], m);
    }
  }

  /** A longer list is good if its front was good at a smaller serial and its last log is. */
  lemma GoodBookSnoc(b: Book, c: Comment, n: nat)
    requires GoodBook(b) && b.serial <= n && GoodLog(Events(c), n)
    ensures GoodBook(Book(b.list + [c], n))
  {
    forall i | 0 <= i < |b.list + [c]| ensures GoodLog(Events((b.list + [c])[i]), n) {
      if i < |b.list| {
        GoodLogGrows(Events(b.list[i]), b.serial, n);
      }
    }
  }

  lemma {:induction false} EachRemembers(b: Book, pass: Pass)
    requires GoodBook(b)
    ensures GoodBook(Each(b, pass)) && RemembersAll(b.list, Each(b, pass).list)
    decreases |b.list|
  {
    hide Apply, GoodLog, Remembers;
    if b.list != [] {
      var front := Book(b.list[..|b.list| - 1], b.serial);
      EachRemembers(front, pass);
      var p := Each(front, pass);
      var c := b.list[|b.list| - 1];
      GoodLogGrows(Events(c), b.serial, p.serial);
      PassRemembers(pass, c, p.serial);
      var (d, n) := Apply(pass, c, p.serial);
      GoodBookSnoc(p, d, n);
      assert Each(b, pass) == Book(p.list + [d], n);
      forall i | 0 <= i < |b.list| ensures Remembers(b.list[i], (p.list + [d])[i]) {
        if i < |p.list| {
          assert Remembers(front.list[i], p.list[i]);
        }
      }
    }
  }

  lemma ReconcileAllRemembers(b: Book, aids: seq<StampedArtifact>, v: int, clock: string)
    requires GoodBook(b)
    ensures GoodBook(Reconcile(b, aids, v, clock)) && RemembersAll(b.list, Reconcile(b, aids, v, clock).list)
  {
    EachRemembers(b, MigratePass(clock));
    var m := Migrate(b, clock);
    EachRemembers(m, ReconcilePass(aids, ReconcileVersion(v), clock));
    RemembersTransitive(b.list, m.list, Reconcile(b, aids, v, clock).list);
  }

  lemma {:induction false} MergeRemembers(b: Book, local: seq<Comment>, clock: string)
    requires GoodBook(b)
    requires forall i :: 0 <= i < |local| ==> GoodLog(Events(local[i]), b.serial)
    ensures GoodBook(MergeLocal(b, local, clock)) && b.serial <= MergeLocal(b, local, clock).serial
    decreases |local|
  {
    if local != [] {
      MergeRemembers(b, local[..|local| - 1], clock);
      var p := MergeLocal(b, local[..|local| - 1], clock);
      var lc := local[|local| - 1];
      if !(lc.id == "" || FindById(p.list, lc.id) < |p.list|) {
        GoodLogGrows(Events(lc), b.serial, p.serial);
        EnsureLogRemembers(lc, clock, p.serial);
        GoodBookSnoc(p, EnsureLog(lc, clock, p.serial).0, EnsureLog(lc, clock, p.serial).1);
      }
    }
  }

  lemma PrefixRemembered(a: seq<Comment>, b: seq<Comment>)
    requires a <= b
    ensures RemembersAll(a, b)
  {
  }

  lemma ReplaceRemembers(b: Book, i: nat, c: Comment, n: nat)
    requires GoodBook(b) && i < |b.list| && b.serial <= n && Remembers(b.list[i], c) && GoodLog(Events(c), n)
    ensures GoodBook(Book(b.list[i := c], n)) && RemembersAll(b.list, b.list[i := c])
  {
    var l := b.list[i := c];
    forall j | 0 <= j < |l| ensures GoodLog(Events(l[j]), n) {
      GoodLogGrows(Events(b.list[j]), b.serial, n);
    }
  }

  lemma AppendAtRemembers(b: Book, i: nat, e: CommentEvent)
    requires GoodBook(b) && i < |b.list| && e.eid.NoEid?
    ensures GoodBook(AppendAt(b, i, e)) && RemembersAll(b.list, AppendAt(b, i, e).list)
  {
    AppendRemembers(b.list[i], e, b.serial);
    var (c, n) := Append(b.list[i], e, b.serial);
    ReplaceRemembers(b, i, c, n);
  }

  // ---------------------------------------------------------------- operations and runs

  /** What the callers of the operations supply: raw events without ids, and local comments whose ids
      came from EventEID. */
  predicate GoodOp(op: CommentOp, serial: nat) {
    match op
    case RawEventsOp(_, events) => forall i :: 0 <= i < |events| ==> events[i].eid.NoEid?
    case PublishMergeOp(local, _, _) => forall i :: 0 <= i < |local| ==> GoodLog(Events(local[i]), serial)
    case _ => true
  }

  lemma GoodOpGrows(op: CommentOp, m: nat, n: nat)
    requires GoodOp(op, m) && m <= n
    ensures GoodOp(op, n)
  {
    if op.PublishMergeOp? {
      forall i | 0 <= i < |op.local| ensures GoodLog(Events(op.local[i]), n) {
        GoodLogGrows(Events(op.local[i]), m, n);
      }
    }
  }

  /** The list a good operation leaves is good and forgets no deletion. */
  ghost predicate Kept(b: Book, r: Book) {
    GoodBook(r) && RemembersAll(b.list, r.list)
  }

  lemma CreateRemembers(b: Book, op: CommentOp, at: string)
    requires GoodBook(b) && op.CreateOp?
    ensures Kept(b, Create(b, op, at).0)
  {
    var r := Create(b, op, at).0;
    GoodBookSnoc(b, r.list[|b.list|], r.serial);
    PrefixRemembered(b.list, r.list);
  }

  lemma ReplyRemembers(b: Book, op: CommentOp, at: string)
    requires GoodBook(b) && op.ReplyOp?
    ensures Kept(b, Reply(b, op, at).0)
  {
    var i := FindById(b.list, op.parentId);
    if i < |b.list| {
      AppendAtRemembers(b, i, BlankEvent(ReplyAdded, op.version, at).(
                                reply := Some(ReplySeed(op.replyId, op.author, op.text, ""))));
    }
  }

  lemma PatchAnchorRemembers(b: Book, op: CommentOp, at: string)
    requires GoodBook(b) && op.PatchAnchorOp?
    ensures Kept(b, PatchAnchor(b, op, at).0)
  {
    var i := FindById(b.list, op.id);
    if i < |b.list| {
      AppendAtRemembers(b, i, BlankEvent(AnchorChanged, op.version, at).(
                                resetStatus := Some(op.resetStatus), anchor := op.anchor, user := op.actor));
    }
  }

  lemma ReactRemembers(b: Book, op: CommentOp, at: string)
    requires GoodBook(b) && op.ReactOp?
    ensures Kept(b, React(b, op, at).0)
  {
    hide Snapshot, Append, Reacted;
    var h := FindHost(b.list, op.id);
    if !h.NoHost? {
      var replyId := if h.ReplyHost? then op.id else "";
      AppendAtRemembers(b, h.index, ReactEvent(replyId, true, op, at));
      AppendAtRemembers(b, h.index, ReactEvent(replyId, false, op, at));
    }
  }

  lemma DeleteRemembers(b: Book, op: CommentOp, at: string)
    requires GoodBook(b) && op.DeleteOp?
    ensures Kept(b, Delete(b, op, at).0)
  {
    var h := FindHost(b.list, op.id);
    if !h.NoHost? {
      var e := if h.ReplyHost? then BlankEvent(ReplyDeleted, op.version, at).(replyId := op.id, user := op.actor)
               else BlankEvent(Deleted, op.version, at).(user := op.actor);
      AppendAtRemembers(b, h.index, e);
    }
  }

  lemma RawEventsRemember(b: Book, op: CommentOp)
    requires GoodBook(b) && op.RawEventsOp? && GoodOp(op, b.serial)
    ensures Kept(b, RawEvents(b, op).0)
  {
    var i := FindById(b.list, op.id);
    if i < |b.list| {
      AppendAllRemembers(b.list[i], op.events, b.serial);
      var (c, n) := AppendAll(b.list[i], op.events, b.serial);
      ReplaceRemembers(b, i, c, n);
    }
  }

  lemma PublishRemembers(b: Book, op: CommentOp, clock: string)
    requires GoodBook(b) && op.PublishMergeOp? && GoodOp(op, b.serial)
    ensures Kept(b, PublishMerge(b, op, clock).0)
  {
    MergeRemembers(b, op.local, clock);
    var m := MergeLocal(b, op.local, clock);
    PrefixRemembered(b.list, m.list);
    ReconcileAllRemembers(m, op.aids, op.version, clock);
    var r := Reconcile(m, op.aids, op.version, clock);
    EachRemembers(r, CompactPass);
    RemembersTransitive(m.list, r.list, CompactAll(r).list);
    RemembersTransitive(b.list, m.list, CompactAll(r).list);
  }

  /** Every operation keeps the ids well formed and forgets no deletion of any stored comment. */
  lemma OpRemembers(b: Book, op: CommentOp, at: string, clock: string)
    requires GoodBook(b) && GoodOp(op, b.serial)
    ensures Kept(b, ApplyOp(b, op, at, clock).0)
  {
    EachRemembers(b, MigratePass(clock));
    var m := Migrate(b, clock);
    GoodOpGrows(op, b.serial, m.serial);
    match op {
      case CreateOp(_, _, _, _, _) => CreateRemembers(m, op, at);
      case ReplyOp(_, _, _, _, _) => ReplyRemembers(m, op, at);
      case PatchAnchorOp(_, _, _, _, _) => PatchAnchorRemembers(m, op, at);
      case ReactOp(_, _, _, _) => ReactRemembers(m, op, at);
      case DeleteOp(_, _, _) => DeleteRemembers(m, op, at);
      case RawEventsOp(_, _) => RawEventsRemember(m, op);
      case PublishMergeOp(_, _, _) => PublishRemembers(m, op, clock);
      case _ =>
    }
    RemembersTransitive(b.list, m.list, ApplyOp(b, op, at, clock).0.list);
  }

  /** One request: an operation with its two clock readings. */
  datatype Call = Call(op: CommentOp, at: string, clock: string)

  /** Read, apply, write: only a successful operation is persisted, a wipe drops the list. */
  ghost function Serve(b: Book, call: Call): Book {
    var (r, res) := ApplyOp(b, call.op, call.at, call.clock);
    if res.status != 200 then Book(b.list, r.serial)
    else if res.wipe then Book([], r.serial)
    else r
  }

  ghost function Run(b: Book, calls: seq<Call>): Book {
    if calls == [] then b else Serve(Run(b, calls[..|calls| - 1]), calls[|calls| - 1])
  }

  /** Every request of the run is well supplied when its turn comes, and none is a wipe. */
  ghost predicate GoodRun(b: Book, calls: seq<Call>) {
    forall i :: 0 <= i < |calls| ==> !calls[i].op.WipeOp? && GoodOp(calls[i].op, Run(b, calls[..i]).serial)
  }

  lemma GoodRunPrefix(b: Book, calls: seq<Call>)
    requires calls != [] && GoodRun(b, calls)
    ensures GoodRun(b, calls[..|calls| - 1])
  {
    var front := calls[..|calls| - 1];
    forall i | 0 <= i < |front| ensures !front[i].op.WipeOp? && GoodOp(front[i].op, Run(b, front[..i]).serial) {
      assert front[..i] == calls[..i];
      assert front[i] == calls[i];
    }
  }

  lemma ServeRemembers(b: Book, call: Call)
    requires GoodBook(b) && !call.op.WipeOp? && GoodOp(call.op, b.serial)
    ensures Kept(b, Serve(b, call))
  {
    hide Snapshot, Append, AppendAll, Each, MergeLocal, GoodOp, GoodLog, FindHost, FindById;
    OpRemembers(b, call.op, call.at, call.clock);
    var (r, res) := ApplyOp(b, call.op, call.at, call.clock);
    if res.status != 200 {
      var m := Migrate(b, call.clock);
      assert r == m;
      forall i | 0 <= i < |b.list| ensures GoodLog(Events(b.list[i]), r.serial) {
        GoodLogGrows(Events(b.list[i]), b.serial, r.serial);
      }
    }
  }

  lemma {:induction false} RunRemembers(b: Book, calls: seq<Call>)
    requires GoodBook(b) && GoodRun(b, calls)
    ensures Kept(b, Run(b, calls))
  {
    if calls != [] {
      var front := calls[..|calls| - 1];
      GoodRunPrefix(b, calls);
      RunRemembers(b, front);
      ServeRemembers(Run(b, front), calls[|calls| - 1]);
      RemembersTransitive(b.list, Run(b, front).list, Run(b, calls).list);
    }
  }

  /** The alive snapshots of a migrated list at version v. */
  function SnapshotList(list: seq<Comment>, v: int): seq<CommentSnapshot> {
    if list == [] then []
    else
      var s := Snapshot(list[|list| - 1], v);
      SnapshotList(list[..|list| - 1], v) + (if s.Some? && !s.value.deleted then [s.value] else [])
  }

  lemma {:induction false} SnapshotListAppend(a: seq<Comment>, b: seq<Comment>, v: int)
    ensures SnapshotList(a + b, v) == SnapshotList(a, v) + SnapshotList(b, v)
  {
    hide Snapshot;
    if b == [] {
      assert a + b == a;
    } else {
      SnapshotListAppend(a, b[..|b| - 1], v);
      assert (a + b)[..|a + b| - 1] == a + b[..|b| - 1];
    }
  }

  predicate Alive(c: Comment, v: int) {
    Snapshot(c, v).Some? && !Snapshot(c, v).value.deleted
  }

  /** The list of snapshots is that of the comments alive at v, each once and in their order: at holds their
      places. */
  lemma {:induction false} ListedAlive(list: seq<Comment>, v: int) returns (at: seq<nat>)
    ensures |at| == |SnapshotList(list, v)|
    ensures forall k :: 0 <= k < |at| ==>
      at[k] < |list| && Alive(list[at[k]], v) && Snapshot(list[at[k]], v) == Some(SnapshotList(list, v)[k])
    ensures forall j, k :: 0 <= j < k < |at| ==> at[j] < at[k]
    ensures forall i: nat :: i < |list| && Alive(list[i], v) ==> i in at
  {
    hide SnapshotList, Snapshot, Alive;
    at := [];
    if list == [] {
      NoneListed(v);
    } else {
      var front, n := list[..|list| - 1], |list| - 1;
      ListedLast(list, v);
      at := ListedAlive(front, v);
      assert forall k :: 0 <= k < |at| ==> at[k] < n && list[at[k]] == front[at[k]];
      if Alive(list[n], v) {
        at := at + [n];
      }
    }
  }

  lemma NoneListed(v: int)
    ensures SnapshotList([], v) == []
  {
  }

  lemma ListedLast(list: seq<Comment>, v: int)
    requires list != []
    ensures var front, last := list[..|list| - 1], list[|list| - 1];
      && (Alive(last, v) ==> Snapshot(last, v).Some?)
      && SnapshotList(list, v) == if Alive(last, v) then SnapshotList(front, v) + [Snapshot(last, v).value]
                                  else SnapshotList(front, v)
  {
    hide Snapshot;
  }

  /** A comment that is not alive contributes nothing to the list. */
  lemma ListedWithout(list: seq<Comment>, i: nat, v: int)
    requires i < |list| && (Snapshot(list[i], v).Some? ==> Snapshot(list[i], v).value.deleted)
    ensures SnapshotList(list, v) == SnapshotList(list[..i] + list[i + 1..], v)
  {
    hide Snapshot;
    SnapshotListAppend(list[..i], list[i..], v);
    SnapshotListAppend([list[i]], list[i + 1..], v);
    SnapshotListAppend(list[..i], list[i + 1..], v);
    assert list == list[..i] + list[i..] && list[i..] == [list[i]] + list[i + 1..];
    assert [list[i]][..0] == [];
  }

  /** A comment deleted at v never reappears: whatever operations follow short of a wipe, at every
      version w from v on its snapshot is absent or deleted, and the list of snapshots is as if the comment were not
      there. */
  lemma DeletedNeverReappears(b: Book, calls: seq<Call>, i: nat, v: int, w: int, clock: string)
    requires GoodBook(b) && GoodRun(b, calls)
    requires i < |b.list| && DeletedIn(Events(b.list[i]), v)
    requires v <= w || !IsFiniteVersion(w)
    ensures var m := Migrate(Run(b, calls), clock);
      i < |m.list| && m.list[i].id == b.list[i].id
      && (Snapshot(m.list[i], w).Some? ==> Snapshot(m.list[i], w).value.deleted)
      && SnapshotList(m.list, w) == SnapshotList(m.list[..i] + m.list[i + 1..], w)
  {
    RunRemembers(b, calls);
    var r := Run(b, calls);
    EachRemembers(r, MigratePass(clock));
    var m := Migrate(r, clock);
    RemembersTransitive(b.list, r.list, m.list);
    assert Remembers(b.list[i], m.list[i]);
    var s := Events(m.list[i]);
    assert DeletedIn(s, v);
    var k :| 0 <= k < |s| && s[k].kind.Deleted? && Visible(s[k], v);
    assert DeletedIn(s, ReadAt(w));
    assert GoodLog(s, m.serial);
    DeletedExactly(m.list[i], s, m.serial, w);
    ListedWithout(m.list, i, w);
  }
}
