/** A garbage-collection pass over orphan assets, interleaved with authors who change documents and
    assets under the per-slug lock. */
module AssetGc {
  import opened CommentTypes
  import opened HexScan
  import opened StorageKeys

  /** html is every stored blob, docRows the slugs with a metadata row, rows the asset registry with its
      creation stamps, bytes the stored asset contents. */
  datatype Storage = Storage(html: map<Blob, string>, docRows: set<string>, rows: map<Asset, string>, bytes: set<Asset>)

  /** The two time layouts that are tried in turn, and the parameters of the pass. */
  datatype Config = Config(parseIso: string -> Option<int>, parseRfc3339: string -> Option<int>,
                           now: int, grace: int, dryRun: bool)

  datatype Row = Row(sha: string, created: string)

  /** Where the pass stands. todo lists blobs still to read, queue and left slugs still to visit. */
  datatype Phase =
    | Start
    | Listed(slugs: seq<string>)
    | Snapshot(slugs: seq<string>, queue: seq<string>, todo: seq<Blob>)
    | Between(left: seq<string>)
    | Locked(slug: string, left: seq<string>)
    | Rescan(slug: string, left: seq<string>, todo: seq<Blob>, seen: set<string>)
    | Deciding(slug: string, left: seq<string>, seen: set<string>, assets: seq<Row>)
    | Erasing(slug: string, left: seq<string>, seen: set<string>, assets: seq<Row>)
    | Stopped
  {
    /** The pass holds this slug's lock. */
    predicate Holds(s: string) { (Locked? || Rescan? || Deciding? || Erasing?) && slug == s }
  }

  /** authors is the set of slugs whose lock an author holds; refs the global reference set; seenTexts
      records every blob the snapshot read. */
  datatype State = State(db: Storage, authors: set<string>, gc: Phase, refs: set<string>, seenTexts: set<string>)

  datatype Action =
    | AuthorLock(slug: string)
    | AuthorWrite(slug: string, after: Storage)
    | AuthorUnlock(slug: string)
    | ListSlugs(slugs: seq<string>)
    | ListDocs(docs: seq<string>)
    | OpenNext(versions: seq<nat>)
    | ReadNext
    | EndSnapshot
    | LockNext
    | Reopen(versions: seq<nat>)
    | Reread
    | ListRows(assets: seq<Row>)
    | KeepAsset
    | NoteAsset
    | DeleteBytes
    | DeleteRow
    | Unlock
    | Fail

  /** withinGrace: the age against the grace period, and whether the stamp parsed at all. */
  function ParsedTime(c: Config, created: string): Option<int> {
    if c.parseIso(created).Some? then c.parseIso(created) else c.parseRfc3339(created)
  }

  predicate PastGrace(c: Config, created: string) {
    ParsedTime(c, created).Some? && c.now - ParsedTime(c, created).value >= c.grace
  }

  predicate KeepIt(c: Config, refs: set<string>, seen: set<string>, a: Row) {
    a.sha in refs || a.sha in seen || !PastGrace(c, a.created)
  }

  /** What a listing of slugs with assets, of documents, of versions and of a slug's assets returns. */
  ghost predicate ListsAssetSlugs(db: Storage, slugs: seq<string>) {
    forall s :: s in slugs <==> exists a :: a in db.rows && a.slug == s
  }

  ghost predicate ListsDocs(db: Storage, docs: seq<string>) {
    forall s :: s in docs <==> s in db.docRows
  }

  ghost predicate ListsVersions(db: Storage, slug: string, versions: seq<nat>) {
    forall n: nat :: n in versions <==> Version(slug, n) in db.html
  }

  ghost predicate ListsRows(db: Storage, slug: string, assets: seq<Row>) {
    && (forall sha :: Asset(slug, sha) in db.rows ==> Row(sha, db.rows[Asset(slug, sha)]) in assets)
    && RowsStored(db, slug, assets)
  }

  /** Each listed row is stored, and listed once. */
  predicate RowsStored(db: Storage, slug: string, assets: seq<Row>) {
    && (forall a :: a in assets ==> Asset(slug, a.sha) in db.rows && db.rows[Asset(slug, a.sha)] == a.created)
    && (forall i, j :: 0 <= i < j < |assets| ==> assets[i].sha != assets[j].sha)
  }

  /** The blobs one scan of a slug reads: the versions listed, then the draft. */
  function ToRead(slug: string, versions: seq<nat>): (r: seq<Blob>) {
    if versions == [] then [Draft(slug)] else [Version(slug, versions[0])] + ToRead(slug, versions[1..])
  }

  lemma {:induction false} ToReadHas(slug: string, versions: seq<nat>)
    ensures Draft(slug) in ToRead(slug, versions)
    ensures forall n: nat :: Version(slug, n) in ToRead(slug, versions) <==> n in versions
    ensures forall b :: b in ToRead(slug, versions) ==> b.slug == slug
  {
    if versions != [] {
      ToReadHas(slug, versions[1..]);
      assert versions == [versions[0]] + versions[1..];
    }
  }

  /** The slugs of the list that the documents do not cover. */
  function Uncovered(slugs: seq<string>, docs: seq<string>): seq<string> {
    if slugs == [] then []
    else (if slugs[0] in docs then [] else [slugs[0]]) + Uncovered(slugs[1..], docs)
  }

  lemma {:induction false} UncoveredHas(slugs: seq<string>, docs: seq<string>, s: string)
    requires s in slugs
    ensures s in docs || s in Uncovered(slugs, docs)
  {
    if slugs[0] != s {
      UncoveredHas(slugs[1..], docs, s);
    }
  }

  /** Records outside the slug are the same. */
  ghost predicate OnlyTouches(slug: string, before: Storage, after: Storage) {
    && (forall b: Blob :: b.slug != slug ==> (b in before.html <==> b in after.html))
    && (forall b: Blob :: b.slug != slug && b in before.html && b in after.html ==> before.html[b] == after.html[b])
    && (forall s :: s != slug ==> (s in before.docRows <==> s in after.docRows))
    && (forall a: Asset :: a.slug != slug ==> (a in before.rows <==> a in after.rows))
    && (forall a: Asset :: a.slug != slug && a in before.rows && a in after.rows ==> before.rows[a] == after.rows[a])
    && (forall a: Asset :: a.slug != slug ==> (a in before.bytes <==> a in after.bytes))
  }

  ghost predicate Enabled(c: Config, s: State, a: Action) {
    var g := s.gc;
    match a
    case AuthorLock(slug) => slug !in s.authors && !g.Holds(slug)
    case AuthorWrite(slug, after) => slug in s.authors && OnlyTouches(slug, s.db, after)
    case AuthorUnlock(slug) => slug in s.authors
    case ListSlugs(slugs) => g.Start? && ListsAssetSlugs(s.db, slugs)
    case ListDocs(docs) => g.Listed? && ListsDocs(s.db, docs)
    case OpenNext(versions) => g.Snapshot? && g.todo == [] && g.queue != [] && ListsVersions(s.db, g.queue[0], versions)
    case ReadNext => g.Snapshot? && g.todo != []
    case EndSnapshot => g.Snapshot? && g.todo == [] && g.queue == []
    case LockNext => g.Between? && g.left != [] && g.left[0] !in s.authors
    case Reopen(versions) => g.Locked? && ListsVersions(s.db, g.slug, versions)
    case Reread => g.Rescan? && g.todo != []
    case ListRows(assets) => g.Rescan? && g.todo == [] && ListsRows(s.db, g.slug, assets)
    case KeepAsset => g.Deciding? && g.assets != [] && KeepIt(c, s.refs, g.seen, g.assets[0])
    case NoteAsset => g.Deciding? && g.assets != [] && !KeepIt(c, s.refs, g.seen, g.assets[0]) && c.dryRun
    case DeleteBytes => g.Deciding? && g.assets != [] && !KeepIt(c, s.refs, g.seen, g.assets[0]) && !c.dryRun
    case DeleteRow => g.Erasing? && g.assets != []
    case Unlock => g.Deciding? && g.assets == []
    case Fail => !g.Stopped?
  }

  /** One blob read: an absent blob adds nothing. */
  function TextsOf(db: Storage, b: Blob): set<string> {
    if b in db.html then {db.html[b]} else {}
  }

  function Hits(db: Storage, b: Blob): set<string> {
    if b in db.html then Windows(db.html[b]) else {}
  }

  function Do(c: Config, s: State, a: Action): State
    requires Enabled(c, s, a)
  {
    var g := s.gc;
    match a
    case AuthorLock(slug) => s.(authors := s.authors + {slug})
    case AuthorWrite(slug, after) => s.(db := after)
    case AuthorUnlock(slug) => s.(authors := s.authors - {slug})
    case ListSlugs(slugs) => s.(gc := Listed(slugs))
    case ListDocs(docs) => s.(gc := Snapshot(g.slugs, docs + Uncovered(g.slugs, docs), []))
    case OpenNext(versions) => s.(gc := Snapshot(g.slugs, g.queue[1..], ToRead(g.queue[0], versions)))
    case ReadNext => s.(gc := Snapshot(g.slugs, g.queue, g.todo[1..]),
                        refs := s.refs + Hits(s.db, g.todo[0]), seenTexts := s.seenTexts + TextsOf(s.db, g.todo[0]))
    case EndSnapshot => s.(gc := Between(g.slugs))
    case LockNext => s.(gc := Locked(g.left[0], g.left[1..]))
    case Reopen(versions) => s.(gc := Rescan(g.slug, g.left, ToRead(g.slug, versions), {}))
    case Reread => s.(gc := Rescan(g.slug, g.left, g.todo[1..], g.seen + Hits(s.db, g.todo[0])))
    case ListRows(assets) => s.(gc := Deciding(g.slug, g.left, g.seen, assets))
    case KeepAsset => s.(gc := Deciding(g.slug, g.left, g.seen, g.assets[1..]))
    case NoteAsset => s.(gc := Deciding(g.slug, g.left, g.seen, g.assets[1..]))
    case DeleteBytes => s.(db := s.db.(bytes := s.db.bytes - {Asset(g.slug, g.assets[0].sha)}),
                           gc := Erasing(g.slug, g.left, g.seen, g.assets))
    case DeleteRow => s.(db := s.db.(rows := s.db.rows - {Asset(g.slug, g.assets[0].sha)}),
                         gc := Deciding(g.slug, g.left, g.seen, g.assets[1..]))
    case Unlock => s.(gc := Between(g.left))
    case Fail => s.(gc := Stopped)
  }

  predicate Initial(s: State) {
    s.gc.Start? && s.refs == {} && s.seenTexts == {}
  }

  ghost predicate Runs(c: Config, s: State, run: seq<Action>)
    decreases |run|, 0
  {
    run == [] || (Runs(c, s, run[..|run| - 1]) && Enabled(c, End(c, s, run[..|run| - 1]), run[|run| - 1]))
  }

  ghost function End(c: Config, s: State, run: seq<Action>): State
    requires Runs(c, s, run)
    decreases |run|, 1
  {
    if run == [] then s else Do(c, End(c, s, run[..|run| - 1]), run[|run| - 1])
  }

  // ---------------------------------------------------------------- nothing wrong is deleted

  /** The reference set is exactly what the texts read so far contain. */
  ghost predicate RefsExact(s: State) {
    forall w :: w in s.refs <==> exists t :: t in s.seenTexts && w in Windows(t)
  }

  /** While the pass holds a slug, no author does. */
  predicate Exclusive(s: State) {
    (s.gc.Locked? || s.gc.Rescan? || s.gc.Deciding? || s.gc.Erasing?) ==> s.gc.slug !in s.authors
  }

  /** The re-scan under the lock covers every blob of the slug it is not still to read. */
  predicate Covered(s: State) {
    && (s.gc.Rescan? ==>
          forall b: Blob :: b in s.db.html && b.slug == s.gc.slug && b !in s.gc.todo ==>
              Windows(s.db.html[b]) <= s.gc.seen)
    && (s.gc.Deciding? || s.gc.Erasing? ==>
          forall b: Blob :: b in s.db.html && b.slug == s.gc.slug ==> Windows(s.db.html[b]) <= s.gc.seen)
  }

  /** The listed rows are still the stored ones, and what is being erased was judged deletable. */
  predicate Judged(c: Config, s: State) {
    && (s.gc.Deciding? || s.gc.Erasing? ==> RowsStored(s.db, s.gc.slug, s.gc.assets))
    && (s.gc.Erasing? ==> s.gc.assets != [] && !KeepIt(c, s.refs, s.gc.seen, s.gc.assets[0]) && !c.dryRun)
  }

  /** An address that the HTML of the slug holds now. */
  predicate HeldBy(db: Storage, slug: string, w: string) {
    exists b: Blob :: b in db.html && b.slug == slug && w in Windows(db.html[b])
  }

  /** What the re-scan has seen, the slug's HTML holds, and still does. */
  ghost predicate SeenHeld(s: State) {
    && (s.gc.Rescan? ==> forall b :: b in s.gc.todo ==> b.slug == s.gc.slug)
    && (s.gc.Rescan? || s.gc.Deciding? || s.gc.Erasing? ==> forall w :: w in s.gc.seen ==> HeldBy(s.db, s.gc.slug, w))
  }

  ghost predicate Inv(c: Config, s: State) {
    RefsExact(s) && Exclusive(s) && Covered(s) && SeenHeld(s) && Judged(c, s)
  }

  lemma HeldStays(slug: string, other: string, before: Storage, after: Storage, w: string)
    requires OnlyTouches(other, before, after) && slug != other
    ensures HeldBy(before, slug, w) <==> HeldBy(after, slug, w)
  {
  }

  lemma HeldSame(slug: string, before: Storage, after: Storage, w: string)
    requires before.html == after.html
    ensures HeldBy(before, slug, w) <==> HeldBy(after, slug, w)
  {
  }

  lemma StepSeenHeld(c: Config, s: State, a: Action)
    requires Exclusive(s) && SeenHeld(s) && Enabled(c, s, a)
    ensures SeenHeld(Do(c, s, a))
  {
    hide HeldBy;
    match a
    case AuthorWrite(slug, after) =>
      forall w
        ensures s.gc.Rescan? || s.gc.Deciding? || s.gc.Erasing? ==>
          (HeldBy(s.db, s.gc.slug, w) <==> HeldBy(after, s.gc.slug, w))
      {
        if s.gc.Rescan? || s.gc.Deciding? || s.gc.Erasing? { HeldStays(s.gc.slug, slug, s.db, after, w); }
      }
    case Reopen(versions) =>
      ToReadHas(s.gc.slug, versions);
    case Reread =>
      assert s.gc.todo[0] in s.gc.todo;
      HitsHeld(s.db, s.gc.todo[0]);
    case DeleteBytes =>
      forall w ensures HeldBy(s.db, s.gc.slug, w) ==> HeldBy(Do(c, s, a).db, s.gc.slug, w) {
        HeldSame(s.gc.slug, s.db, Do(c, s, a).db, w);
      }
    case DeleteRow =>
      forall w ensures HeldBy(s.db, s.gc.slug, w) ==> HeldBy(Do(c, s, a).db, s.gc.slug, w) {
        HeldSame(s.gc.slug, s.db, Do(c, s, a).db, w);
      }
    case _ =>
  }

  lemma HitsHeld(db: Storage, b: Blob)
    ensures forall w :: w in Hits(db, b) ==> HeldBy(db, b.slug, w)
  {
  }

  lemma StepExclusive(c: Config, s: State, a: Action)
    requires Exclusive(s) && Enabled(c, s, a)
    ensures Exclusive(Do(c, s, a))
  {
  }

  lemma StepRefs(c: Config, s: State, a: Action)
    requires RefsExact(s) && Enabled(c, s, a)
    ensures RefsExact(Do(c, s, a))
  {
    if a.ReadNext? {
      var b := s.gc.todo[0];
      assert forall t :: t in TextsOf(s.db, b) ==> Windows(t) == Hits(s.db, b);
      if b in s.db.html {
        assert s.db.html[b] in TextsOf(s.db, b);
      }
    }
  }

  lemma StepCovered(c: Config, s: State, a: Action)
    requires Exclusive(s) && Covered(s) && Enabled(c, s, a)
    ensures Covered(Do(c, s, a))
  {
    match a
    case Reopen(versions) =>
      ToReadHas(s.gc.slug, versions);
      assert forall b: Blob :: b in s.db.html && b.slug == s.gc.slug ==> b in ToRead(s.gc.slug, versions);
    case Reread =>
      assert forall b: Blob :: b in s.gc.todo ==> b == s.gc.todo[0] || b in s.gc.todo[1..];
    case _ =>
  }

  lemma StepJudged(c: Config, s: State, a: Action)
    requires Exclusive(s) && Judged(c, s) && Enabled(c, s, a)
    ensures Judged(c, Do(c, s, a))
  {
  }

  lemma {:induction false} RunInv(c: Config, s: State, run: seq<Action>)
    requires Initial(s) && Runs(c, s, run)
    ensures Inv(c, End(c, s, run))
  {
    if run != [] {
      var front, a := run[..|run| - 1], run[|run| - 1];
      RunInv(c, s, front);
      var mid := End(c, s, front);
      StepExclusive(c, mid, a);
      StepRefs(c, mid, a);
      StepCovered(c, mid, a);
      StepSeenHeld(c, mid, a);
      StepJudged(c, mid, a);
    }
  }

  /** The row a deletion step is about. */
  function Target(s: State): Asset
    requires (s.gc.Deciding? || s.gc.Erasing?) && s.gc.assets != []
  {
    Asset(s.gc.slug, s.gc.assets[0].sha)
  }

  /** GC safety: whatever the interleaving, an asset whose bytes or row the pass deletes is registered with
      a stamp that parses and is past grace, no HTML its own slug stores at that moment contains its
      address, no blob read for the snapshot did, no author holds the slug, and the pass is not a dry run. */
  lemma NothingReferencedIsDeleted(c: Config, s0: State, run: seq<Action>, a: Action)
    requires Initial(s0) && Runs(c, s0, run)
    requires a.DeleteBytes? || a.DeleteRow?
    requires Enabled(c, End(c, s0, run), a)
    ensures var s := End(c, s0, run);
      (&& Target(s) in s.db.rows
       && ParsedTime(c, s.db.rows[Target(s)]).Some?
       && c.now - ParsedTime(c, s.db.rows[Target(s)]).value >= c.grace
       && (forall b: Blob :: b in s.db.html && b.slug == Target(s).slug ==> Target(s).sha !in Windows(s.db.html[b]))
       && (forall t :: t in s.seenTexts ==> Target(s).sha !in Windows(t))
       && Target(s).slug !in s.authors
       && !c.dryRun)
  {
    RunInv(c, s0, run);
    var s := End(c, s0, run);
    assert s.gc.assets[0] in s.gc.assets;
  }

  /** What a deletion depends on: the asset's own row, its own slug's HTML as it is, the texts the snapshot read,
      and nothing that any other slug holds. */
  ghost predicate Deletable(c: Config, s: State, a: Asset) {
    && a in s.db.rows && PastGrace(c, s.db.rows[a]) && !c.dryRun
    && !HeldBy(s.db, a.slug, a.sha)
    && forall t :: t in s.seenTexts ==> a.sha !in Windows(t)
  }

  /** The decision is exact: in every run, when the pass comes to an asset, it deletes it if and only if the row
      is past grace with a stamp that parses, the scan finds its address in no HTML its own slug stores at that
      moment, and found it in no blob read for the snapshot. */
  lemma DeletionExactly(c: Config, s0: State, run: seq<Action>)
    requires Initial(s0) && Runs(c, s0, run)
    requires End(c, s0, run).gc.Deciding? && End(c, s0, run).gc.assets != []
    ensures Enabled(c, End(c, s0, run), DeleteBytes) <==> Deletable(c, End(c, s0, run), Target(End(c, s0, run)))
  {
    RunInv(c, s0, run);
    var s := End(c, s0, run);
    assert s.gc.assets[0] in s.gc.assets;
  }

  // ---------------------------------------------------------------- what stays referenced stays

  /** The blob is stored with this text under a slug the pass will look at: one with a document row, or one
      with an asset row. */
  ghost predicate Standing(s: State, b: Blob, t: string, byDoc: bool) {
    && b in s.db.html && s.db.html[b] == t
    && if byDoc then b.slug in s.db.docRows else exists a :: a in s.db.rows && a.slug == b.slug
  }

  /** The snapshot has the text's addresses, or still has the blob ahead of it. */
  predicate Ahead(s: State, b: Blob, t: string, byDoc: bool) {
    match s.gc
    case Start => true
    case Listed(slugs) => byDoc || b.slug in slugs
    case Snapshot(_, queue, todo) => Windows(t) <= s.refs || b.slug in queue || b in todo
    case Stopped => true
    case _ => Windows(t) <= s.refs
  }

  lemma StepAhead(c: Config, s: State, a: Action, b: Blob, t: string, byDoc: bool)
    requires Standing(s, b, t, byDoc) && Ahead(s, b, t, byDoc) && Enabled(c, s, a)
    ensures Ahead(Do(c, s, a), b, t, byDoc)
  {
    match a
    case ListDocs(docs) =>
      if !byDoc { UncoveredHas(s.gc.slugs, docs, b.slug); }
    case OpenNext(versions) =>
      ToReadHas(s.gc.queue[0], versions);
      assert forall q :: q in s.gc.queue ==> q == s.gc.queue[0] || q in s.gc.queue[1..];
    case ReadNext =>
      assert forall x :: x in s.gc.todo ==> x == s.gc.todo[0] || x in s.gc.todo[1..];
    case _ =>
  }

  ghost predicate StandsThroughout(c: Config, s: State, run: seq<Action>, b: Blob, t: string, byDoc: bool)
    requires Runs(c, s, run)
    decreases |run|
  {
    Standing(End(c, s, run), b, t, byDoc) && (run == [] || StandsThroughout(c, s, run[..|run| - 1], b, t, byDoc))
  }

  lemma {:induction false} RunAhead(c: Config, s: State, run: seq<Action>, b: Blob, t: string, byDoc: bool)
    requires Initial(s) && Runs(c, s, run) && StandsThroughout(c, s, run, b, t, byDoc)
    ensures Ahead(End(c, s, run), b, t, byDoc)
  {
    if run != [] {
      var front := run[..|run| - 1];
      RunAhead(c, s, front, b, t, byDoc);
      StepAhead(c, End(c, s, front), run[|run| - 1], b, t, byDoc);
    }
  }

  /** An address found in a blob that stays stored for the whole pass, under a slug that keeps a document row
      or keeps an asset row, is never deleted, under whichever slug the asset is. */
  lemma ReferencedThroughoutIsKept(c: Config, s0: State, run: seq<Action>, a: Action, b: Blob, t: string, byDoc: bool)
    requires Initial(s0) && Runs(c, s0, run) && StandsThroughout(c, s0, run, b, t, byDoc)
    requires a.DeleteBytes? || a.DeleteRow?
    requires Enabled(c, End(c, s0, run), a)
    ensures Target(End(c, s0, run)).sha !in Windows(t)
  {
    RunInv(c, s0, run);
    RunAhead(c, s0, run, b, t, byDoc);
  }

  // ---------------------------------------------------------------- the race that is left

  /** One step more: from mid to next by a. */
  lemma Extend(c: Config, s0: State, run: seq<Action>, mid: State, a: Action, next: State) returns (longer: seq<Action>)
    requires Runs(c, s0, run) && End(c, s0, run) == mid && Enabled(c, mid, a) && Do(c, mid, a) == next
    ensures Runs(c, s0, longer) && End(c, s0, longer) == next
  {
    longer := run + [a];
    assert longer[..|run|] == run;
  }

  /** Another document comes to refer to an address while the pass stands anywhere outside its lock. */
  lemma OtherPublishes(c: Config, s0: State, front: seq<Action>, mid: State, other: string, t: string)
    returns (run: seq<Action>, after: State)
    requires Runs(c, s0, front) && End(c, s0, front) == mid
    requires other !in mid.authors && !mid.gc.Holds(other)
    ensures Runs(c, s0, run) && End(c, s0, run) == after
    ensures after == mid.(db := mid.db.(html := mid.db.html[Draft(other) := t]))
  {
    var db := mid.db.(html := mid.db.html[Draft(other) := t]);
    var locked := mid.(authors := mid.authors + {other});
    run := Extend(c, s0, front, mid, AuthorLock(other), locked);
    run := Extend(c, s0, run, locked, AuthorWrite(other, db), locked.(db := db));
    after := mid.(db := db);
    assert locked.authors - {other} == mid.authors;
    run := Extend(c, s0, run, locked.(db := db), AuthorUnlock(other), after);
  }

  /** Safety does not reach across documents: wherever a pass is about to delete an asset, any other document
      can publish a reference to it first, and the pass deletes it all the same. */
  lemma CrossDocumentRace(c: Config, s0: State, front: seq<Action>, other: string, t: string) returns (run: seq<Action>)
    requires Initial(s0) && Runs(c, s0, front)
    requires var s := End(c, s0, front);
      s.gc.Deciding? && s.gc.assets != [] && Deletable(c, s, Target(s)) && other != s.gc.slug && other !in s.authors
      && Target(s).sha in Windows(t)
    ensures Runs(c, s0, run) && End(c, s0, run).gc == End(c, s0, front).gc
    ensures Draft(other) in End(c, s0, run).db.html && End(c, s0, run).db.html[Draft(other)] == t
    ensures Enabled(c, End(c, s0, run), DeleteBytes) && Target(End(c, s0, run)) == Target(End(c, s0, front))
  {
    hide HeldBy, Runs, End;
    var s := End(c, s0, front);
    var after;
    run, after := OtherPublishes(c, s0, front, s, other, t);
    OnlyOther(s.db, other, t);
    HeldStays(s.gc.slug, other, s.db, after.db, Target(s).sha);
    DeletionExactly(c, s0, run);
  }

  lemma OnlyOther(db: Storage, other: string, t: string)
    ensures OnlyTouches(other, db, db.(html := db.html[Draft(other) := t]))
  {
  }

  /** A registry that holds one asset nobody refers to, past grace, and no HTML at all. */
  predicate LoneOrphan(c: Config, s: State, orphan: Asset) {
    && Initial(s) && s.authors == {}
    && s.db.html == map[] && s.db.docRows == {}
    && s.db.rows.Keys == {orphan} && PastGrace(c, s.db.rows[orphan])
  }

  /** The snapshot of such a registry reads nothing. */
  lemma OrphanSnapshot(c: Config, s0: State, orphan: Asset) returns (run: seq<Action>)
    requires LoneOrphan(c, s0, orphan)
    ensures Runs(c, s0, run) && End(c, s0, run) == s0.(gc := Between([orphan.slug]))
  {
    var slugs := [orphan.slug];
    assert orphan in s0.db.rows;
    var listed, queued := s0.(gc := Listed(slugs)), s0.(gc := Snapshot(slugs, slugs, []));
    var reading, read := s0.(gc := Snapshot(slugs, [], [Draft(orphan.slug)])), s0.(gc := Snapshot(slugs, [], []));
    run := Extend(c, s0, [], s0, ListSlugs(slugs), listed);
    assert Uncovered(slugs, []) == slugs;
    assert [] + slugs == slugs;
    run := Extend(c, s0, run, listed, ListDocs([]), queued);
    run := Extend(c, s0, run, queued, OpenNext([]), reading);
    assert Draft(orphan.slug) !in s0.db.html;
    assert [Draft(orphan.slug)][1..] == [];
    run := Extend(c, s0, run, reading, ReadNext, read);
    run := Extend(c, s0, run, read, EndSnapshot, s0.(gc := Between(slugs)));
  }

  /** The re-scan of the orphan's own slug finds nothing either. */
  lemma RescanOrphan(c: Config, s0: State, front: seq<Action>, mid: State, orphan: Asset) returns (run: seq<Action>)
    requires Runs(c, s0, front) && End(c, s0, front) == mid
    requires mid.gc == Between([orphan.slug]) && mid.authors == {}
    requires forall b :: b in mid.db.html ==> b.slug != orphan.slug
    ensures Runs(c, s0, run)
    ensures End(c, s0, run) == mid.(gc := Rescan(orphan.slug, [], [], {}))
  {
    var locked, reading := mid.(gc := Locked(orphan.slug, [])),
        mid.(gc := Rescan(orphan.slug, [], [Draft(orphan.slug)], {}));
    assert [orphan.slug][1..] == [];
    run := Extend(c, s0, front, mid, LockNext, locked);
    run := Extend(c, s0, run, locked, Reopen([]), reading);
    assert Draft(orphan.slug) !in mid.db.html;
    assert [Draft(orphan.slug)][1..] == [];
    assert {} + Hits(mid.db, Draft(orphan.slug)) == {};
    run := Extend(c, s0, run, reading, Reread, mid.(gc := Rescan(orphan.slug, [], [], {})));
  }

  lemma DecideOrphan(c: Config, s0: State, front: seq<Action>, mid: State, orphan: Asset) returns (run: seq<Action>)
    requires Runs(c, s0, front) && End(c, s0, front) == mid
    requires mid.gc == Rescan(orphan.slug, [], [], {}) && mid.db.rows.Keys == {orphan}
    ensures Runs(c, s0, run)
    ensures End(c, s0, run) == mid.(gc := Deciding(orphan.slug, [], {}, [Row(orphan.sha, mid.db.rows[orphan])]))
  {
    var rows := [Row(orphan.sha, mid.db.rows[orphan])];
    assert orphan in mid.db.rows;
    assert forall sha :: Asset(orphan.slug, sha) in mid.db.rows ==> sha == orphan.sha;
    assert ListsRows(mid.db, orphan.slug, rows);
    run := Extend(c, s0, front, mid, ListRows(rows), mid.(gc := Deciding(orphan.slug, [], {}, rows)));
  }

  /** Such a decision is reached, for one from any registry that holds a lone orphan. */
  lemma OrphanReached(c: Config, s0: State, orphan: Asset) returns (run: seq<Action>)
    requires LoneOrphan(c, s0, orphan) && !c.dryRun
    ensures Runs(c, s0, run) && End(c, s0, run).gc.Deciding? && End(c, s0, run).gc.assets != []
    ensures Target(End(c, s0, run)) == orphan && Deletable(c, End(c, s0, run), orphan) && End(c, s0, run).authors == {}
  {
    run := OrphanSnapshot(c, s0, orphan);
    run := RescanOrphan(c, s0, run, End(c, s0, run), orphan);
    run := DecideOrphan(c, s0, run, End(c, s0, run), orphan);
  }
}
