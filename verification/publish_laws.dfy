/** What a publish makes of the stored comments and of those the browser kept. */
module PublishLaws {
  import opened CommentTypes
  import opened EventLog
  import opened CommentFold
  import opened LegacyMigration
  import opened CommentOps
  import opened CommentRuns
  import opened ReconcileLaws

  function Ids(list: seq<Comment>): (ids: seq<string>)
    ensures |ids| == |list| && forall i :: 0 <= i < |ids| ==> ids[i] == list[i].id
  {
    seq(|list|, i requires 0 <= i < |list| => list[i].id)
  }

  /** The ids that are not empty and not known, each at its first place. */
  function NewIds(have: seq<string>, ids: seq<string>): seq<string> {
    if ids == [] then []
    else
      var front, id := ids[..|ids| - 1], ids[|ids| - 1];
      if id == "" || id in have || id in front then NewIds(have, front) else NewIds(have, front) + [id]
  }

  lemma {:induction false} NewIdsMembers(have: seq<string>, ids: seq<string>)
    ensures forall id :: id in NewIds(have, ids) <==> id != "" && id !in have && id in ids
  {
    if ids != [] {
      var front, id := ids[..|ids| - 1], ids[|ids| - 1];
      NewIdsMembers(have, front);
      assert forall x :: x in ids <==> x in front || x == id;
    }
  }

  lemma IdsSnoc(list: seq<Comment>, c: Comment)
    ensures Ids(list + [c]) == Ids(list) + [c.id]
  {
  }

  lemma FoundInIds(list: seq<Comment>, id: string)
    ensures FindById(list, id) < |list| <==> id in Ids(list)
  {
    var i := FindById(list, id);
    if i < |list| {
      assert Ids(list)[i] == id;
    }
  }

  lemma {:induction false} MergeIds(b: Book, local: seq<Comment>, clock: string)
    ensures Ids(MergeLocal(b, local, clock).list) == Ids(b.list) + NewIds(Ids(b.list), Ids(local))
    decreases |local|
  {
    hide EnsureLog, NewIds, Ids;
    if local == [] {
      NoneNew(b);
    } else {
      var front, lc := local[..|local| - 1], local[|local| - 1];
      var p := MergeLocal(b, front, clock);
      MergeIds(b, front, clock);
      NewIdsMembers(Ids(b.list), Ids(front));
      FoundInIds(p.list, lc.id);
      assert local == front + [lc];
      IdsSnoc(front, lc);
      NewIdsSnoc(Ids(b.list), Ids(front), lc.id);
      IdsSnoc(p.list, EnsureLog(lc, clock, p.serial).0);
    }
  }

  lemma NoneNew(b: Book)
    ensures Ids(b.list) == Ids(b.list) + NewIds(Ids(b.list), Ids([]))
  {
  }

  lemma NewIdsSnoc(have: seq<string>, ids: seq<string>, id: string)
    ensures NewIds(have, ids + [id]) ==
      if id == "" || id in have || id in ids then NewIds(have, ids) else NewIds(have, ids) + [id]
  {
    assert (ids + [id])[..|ids|] == ids;
  }

  /** The i-th comment of the merged list: a stored one, or a migrated local one. */
  ghost predicate ComesFrom(c: Comment, list: seq<Comment>, local: seq<Comment>, clock: string, i: nat) {
    if i < |list| then c == list[i]
    else exists k: nat, n: nat :: k < |local| && c == EnsureLog(local[k], clock, n).0
  }

  lemma {:induction false} MergeSource(b: Book, local: seq<Comment>, clock: string, i: nat)
    requires i < |MergeLocal(b, local, clock).list|
    ensures ComesFrom(MergeLocal(b, local, clock).list[i], b.list, local, clock, i)
    decreases |local|
  {
    hide EnsureLog, FindById;
    if i >= |b.list| {
      var front, lc := local[..|local| - 1], local[|local| - 1];
      var p := MergeLocal(b, front, clock);
      if i < |p.list| {
        MergeSource(b, front, clock, i);
        var k: nat, n: nat :| k < |front| && p.list[i] == EnsureLog(front[k], clock, n).0;
        assert local[k] == front[k];
      } else {
        assert local[|local| - 1] == lc;
      }
    }
  }

  /** Compaction leaves every id once and every snapshot as it was. */
  lemma CompactReads(c: Comment, serial: nat, w: int)
    requires c.events.Some? ==> Stamped(c.events.value)
    ensures var d := Compact(c, serial).0;
      DistinctEids(Events(d)) && Stamped(Events(d)) && d.id == c.id && Snapshot(d, w) == Snapshot(c, w)
  {
    hide Dedup, Finalize, FoldEvents, Ordered, VisibleAt;
    if c.events.Some? {
      var s := c.events.value;
      BackfillStamped(s, serial);
      DedupDistinct(s);
      if |Dedup(s)| == |s| {
        DedupSameLength(s);
      }
      CompactionKeepsSnapshots(c, s, w);
    }
  }

  /** d is c published at version v: below v it reads as before; at v a comment alive on an element or lost
      has its anchor where the artifacts leave it, and nothing else changed. */
  ghost predicate PublishedAt(c: Comment, d: Comment, aids: seq<StampedArtifact>, v: int, w: int) {
    && d.id == c.id
    && (IsFiniteVersion(w) && w < v ==> Snapshot(d, w) == Snapshot(c, w))
    && if Anchored(c, v) then
         var was, now := Snapshot(c, v).value, Snapshot(d, v);
         && now.Some? && now.value.anchor.Some? && now.value == was.(anchor := now.value.anchor)
         && if StillThere(was.anchor.value, aids) then now.value == was
            else Drifts(was.anchor.value, now.value.anchor.value, aids)
       else Snapshot(d, w) == Snapshot(c, w)
  }

  lemma PublishOne(c: Comment, aids: seq<StampedArtifact>, v: int, at: string, serial: nat, serial': nat, w: int)
    requires GoodLog(Events(c), serial) && Migrated(c) && IsFiniteVersion(v)
    ensures var d := Compact(ReconcileOne(c, aids, v, at, serial).0, serial').0;
      PublishedAt(c, d, aids, v, w) && DistinctEids(Events(d)) && Stamped(Events(d))
  {
    hide Snapshot, Compact, GoodLog, Anchored, StillThere, Drifts, Settled, Correction;
    var d := ReconcileOne(c, aids, v, at, serial).0;
    ReconcileOneAnchors(c, aids, v, at, serial);
    if IsFiniteVersion(w) && w < v {
      ReconcileOneKeepsEarlier(c, aids, v, at, serial, w);
    }
    CompactReads(d, serial', w);
    CompactReads(d, serial', v);
    AnchoredSome(c, v);
    AnchoredSome(d, v);
  }

  lemma AnchoredSome(c: Comment, v: int)
    ensures Anchored(c, v) ==> Snapshot(c, v).Some? && Snapshot(c, v).value.anchor.Some?
  {
  }

  lemma EachIds(b: Book, pass: Pass)
    ensures Ids(Each(b, pass).list) == Ids(b.list)
    decreases |b.list|
  {
    hide Apply;
    if b.list != [] {
      EachIds(Book(b.list[..|b.list| - 1], b.serial), pass);
    }
  }

  lemma SourceMigrated(b: Book, local: seq<Comment>, clock: string, c: Comment, i: nat)
    requires GoodBook(b) && ComesFrom(c, Migrate(b, clock).list, local, clock, i)
    ensures Migrated(c)
  {
    hide GoodLog, Each, Backfill;
    EachRemembers(b, MigratePass(clock));
    if i < |Migrate(b, clock).list| {
      var n := EachAt(b, MigratePass(clock), i);
    }
  }

  lemma PublishComment(x: Book, op: CommentOp, clock: string, i: nat, w: int)
    requires GoodBook(x) && i < |x.list| && op.PublishMergeOp? && IsFiniteVersion(op.version) && Migrated(x.list[i])
    ensures var r := CompactAll(Reconcile(x, op.aids, op.version, clock));
      i < |r.list| && PublishedAt(x.list[i], r.list[i], op.aids, if op.version == 0 then 1 else op.version, w)
      && DistinctEids(Events(r.list[i])) && Stamped(Events(r.list[i]))
  {
    hide GoodLog, Each, Migrated, PublishedAt, Reconciled, Compact, ReconcileOne, Stamped, DistinctEids;
    var v := ReconcileVersion(op.version);
    EachRemembers(x, MigratePass(clock));
    var y := Migrate(x, clock);
    var k := EachAt(x, MigratePass(clock), i);
    MigratedStays(x.list[i], clock, k);
    var n := EachAt(y, ReconcilePass(op.aids, v, clock), i);
    EachRemembers(y, ReconcilePass(op.aids, v, clock));
    var z := Reconcile(x, op.aids, op.version, clock);
    var n' := EachAt(z, CompactPass, i);
    PublishOne(x.list[i], op.aids, v, clock, n, n', w);
  }

  /** A publish keeps every stored comment at its place and puts the local ones whose id is new behind, each
      once and in their order; it answers how many these are. */
  lemma PublishJoins(b: Book, op: CommentOp, at: string, clock: string)
    requires op.PublishMergeOp?
    ensures var (r, res) := ApplyOp(b, op, at, clock);
      && Ids(r.list) == Ids(b.list) + NewIds(Ids(b.list), Ids(op.local))
      && res == OpResult(200, MergedBody(|r.list| - |b.list|), false)
  {
    hide Each, MergeLocal, NewIds;
    var m := Migrate(b, clock);
    EachIds(b, MigratePass(clock));
    MergeIds(m, op.local, clock);
    var x := MergeLocal(m, op.local, clock);
    EachIds(x, MigratePass(clock));
    EachIds(Migrate(x, clock), ReconcilePass(op.aids, ReconcileVersion(op.version), clock));
    EachIds(Reconcile(x, op.aids, op.version, clock), CompactPass);
  }

  /** Every comment, stored or local, comes out of a publish published at its version (1 for 0), its log
      collapsed. */
  lemma PublishMerges(b: Book, op: CommentOp, at: string, clock: string, i: nat, w: int) returns (c: Comment)
    requires GoodBook(b) && op.PublishMergeOp? && GoodOp(op, b.serial) && IsFiniteVersion(op.version)
    requires i < |ApplyOp(b, op, at, clock).0.list|
    ensures var r := ApplyOp(b, op, at, clock).0;
      && ComesFrom(c, Migrate(b, clock).list, op.local, clock, i)
      && PublishedAt(c, r.list[i], op.aids, if op.version == 0 then 1 else op.version, w)
      && DistinctEids(Events(r.list[i])) && Stamped(Events(r.list[i]))
  {
    hide GoodLog, Each, Migrated, PublishedAt, Stamped, DistinctEids, ComesFrom, MergeLocal, NewIds;
    var m := Migrate(b, clock);
    EachRemembers(b, MigratePass(clock));
    GoodOpGrows(op, b.serial, m.serial);
    MergeRemembers(m, op.local, clock);
    var x := MergeLocal(m, op.local, clock);
    c := x.list[i];
    MergeSource(m, op.local, clock, i);
    SourceMigrated(b, op.local, clock, c, i);
    PublishComment(x, op, clock, i, w);
  }
}
