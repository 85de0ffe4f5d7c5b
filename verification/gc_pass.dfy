/** The garbage-collection pass as the program runs it on a store nobody else changes: what it deletes, what
    it keeps and what it reports. */
module GcPass {
  import opened CommentTypes
  import opened HexScan
  import opened StorageKeys
  import opened AssetGc

  // ---------------------------------------------------------------- what a pass should do

  /** Every address in the blobs of the given slugs. */
  function AddressesOf(db: Storage, slugs: set<string>): set<string> {
    set b, w | b in db.html && b.slug in slugs && w in Windows(db.html[b]) :: w
  }

  function AssetSlugs(db: Storage): set<string> {
    set a | a in db.rows :: a.slug
  }

  /** What the snapshot covers: every slug with a document row or an asset row. */
  function Referenced(db: Storage): set<string> {
    AddressesOf(db, db.docRows + AssetSlugs(db))
  }

  /** The assets a pass deletes, or in a dry run names: unreferenced, and past grace by a stamp that parses. */
  predicate Doomed(c: Config, db: Storage, refs: set<string>, a: Asset) {
    a in db.rows && a.sha !in refs && PastGrace(c, db.rows[a])
  }

  /** The rows among the judged ones that go, and those kept because something refers to them. */
  function Condemned(c: Config, db: Storage, refs: set<string>, judged: set<Asset>): set<Asset> {
    set a | a in judged && Doomed(c, db, refs, a)
  }

  function Spared(refs: set<string>, judged: set<Asset>): set<Asset> {
    set a | a in judged && a.sha in refs
  }

  function RowsOf(db: Storage, slug: string): set<Asset> {
    set a | a in db.rows && a.slug == slug
  }

  function Without(db: Storage, gone: set<Asset>): Storage {
    db.(rows := db.rows - gone, bytes := db.bytes - gone)
  }

  /** The store once these rows were judged. */
  function After(c: Config, db: Storage, refs: set<string>, judged: set<Asset>): Storage {
    if c.dryRun then db else Without(db, Condemned(c, db, refs, judged))
  }

  datatype Report = Report(scanned: nat, assets: nat, deleted: seq<Asset>, kept: nat, referenced: nat)

  function Elements(s: seq<Asset>): set<Asset> {
    set a | a in s
  }

  /** What the counters say once these rows were judged: each is kept or deleted, once. */
  predicate Accounts(c: Config, db: Storage, refs: set<string>, judged: set<Asset>, r: Report) {
    && Elements(r.deleted) == Condemned(c, db, refs, judged) && |r.deleted| == |Condemned(c, db, refs, judged)|
    && r.assets == |judged| && r.referenced == |Spared(refs, judged)|
    && r.assets == r.kept + |r.deleted|
  }

  // ---------------------------------------------------------------- small facts about the sets

  lemma WithoutTwice(db: Storage, gone: set<Asset>, more: set<Asset>)
    ensures Without(Without(db, gone), more) == Without(db, gone + more)
  {
    assert (db.rows - gone) - more == db.rows - (gone + more);
    assert (db.bytes - gone) - more == db.bytes - (gone + more);
  }

  function HitsOf(db: Storage, blobs: set<Blob>): set<string> {
    set b, w | b in blobs && w in Hits(db, b) :: w
  }

  lemma HitsOfMore(db: Storage, blobs: set<Blob>, b: Blob)
    ensures HitsOf(db, blobs + {b}) == HitsOf(db, blobs) + Hits(db, b)
  {
  }

  lemma HitsOfSlug(db: Storage, slug: string, blobs: set<Blob>)
    requires forall b :: b in blobs ==> b.slug == slug
    requires forall b :: b in db.html && b.slug == slug ==> b in blobs
    ensures HitsOf(db, blobs) == AddressesOf(db, {slug})
  {
    forall w ensures w in HitsOf(db, blobs) <==> w in AddressesOf(db, {slug}) {
      if b :| b in blobs && w in Hits(db, b) {
        assert b in db.html && w in Windows(db.html[b]);
      }
      if b :| b in db.html && b.slug in {slug} && w in Windows(db.html[b]) {
        assert w in Hits(db, b);
      }
    }
  }

  lemma AddressesOfMore(db: Storage, slugs: set<string>, slug: string)
    ensures AddressesOf(db, slugs + {slug}) == AddressesOf(db, slugs) + AddressesOf(db, {slug})
  {
  }

  /** One more judged row, as the store and the report see it. */
  lemma JudgeMore(c: Config, db: Storage, refs: set<string>, judged: set<Asset>, a: Asset)
    requires a !in judged && a in db.rows
    ensures Condemned(c, db, refs, judged + {a}) ==
      Condemned(c, db, refs, judged) + if Doomed(c, db, refs, a) then {a} else {}
    ensures Spared(refs, judged + {a}) == Spared(refs, judged) + if a.sha in refs then {a} else {}
    ensures a !in Spared(refs, judged)
    ensures After(c, db, refs, judged + {a}) ==
      if c.dryRun || !Doomed(c, db, refs, a) then After(c, db, refs, judged)
      else Without(After(c, db, refs, judged), {a})
  {
    WithoutTwice(db, Condemned(c, db, refs, judged), {a});
  }

  /** Judging one row: what happens to the store and to the report. */
  predicate JudgedAs(c: Config, refs: set<string>, asset: Asset, created: string,
                     db: Storage, r: Report, db': Storage, r': Report)
  {
    if asset.sha in refs || !PastGrace(c, created) then
      && db' == db
      && r' == r.(assets := r.assets + 1, kept := r.kept + 1,
                  referenced := r.referenced + if asset.sha in refs then 1 else 0)
    else
      && db' == (if c.dryRun then db else Without(db, {asset}))
      && r' == r.(assets := r.assets + 1, deleted := r.deleted + [asset])
  }

  lemma JudgedKept(c: Config, db0: Storage, refs: set<string>, judged: set<Asset>, asset: Asset, r: Report, r': Report)
    requires asset !in judged && asset in db0.rows && Accounts(c, db0, refs, judged, r)
    requires !Doomed(c, db0, refs, asset)
    requires r' == r.(assets := r.assets + 1, kept := r.kept + 1,
                      referenced := r.referenced + if asset.sha in refs then 1 else 0)
    ensures Accounts(c, db0, refs, judged + {asset}, r')
  {
    JudgeMore(c, db0, refs, judged, asset);
  }

  lemma JudgedGone(c: Config, db0: Storage, refs: set<string>, judged: set<Asset>, asset: Asset, r: Report, r': Report)
    requires asset !in judged && asset in db0.rows && Accounts(c, db0, refs, judged, r)
    requires Doomed(c, db0, refs, asset)
    requires r' == r.(assets := r.assets + 1, deleted := r.deleted + [asset])
    ensures Accounts(c, db0, refs, judged + {asset}, r')
  {
    JudgeMore(c, db0, refs, judged, asset);
    assert asset !in Elements(r.deleted);
    assert Elements(r'.deleted) == Elements(r.deleted) + {asset};
  }

  lemma JudgedOne(c: Config, db0: Storage, refs: set<string>, judged: set<Asset>, asset: Asset,
                  db: Storage, r: Report, db': Storage, r': Report)
    requires asset !in judged && asset in db0.rows
    requires Accounts(c, db0, refs, judged, r) && db == After(c, db0, refs, judged)
    requires JudgedAs(c, refs, asset, db0.rows[asset], db, r, db', r')
    ensures Accounts(c, db0, refs, judged + {asset}, r') && db' == After(c, db0, refs, judged + {asset})
  {
    JudgeMore(c, db0, refs, judged, asset);
    if Doomed(c, db0, refs, asset) {
      JudgedGone(c, db0, refs, judged, asset, r, r');
    } else {
      JudgedKept(c, db0, refs, judged, asset, r, r');
    }
  }

  /** The rows listed for a slug that was not judged yet are those it had at the start. */
  lemma ListedAsAtStart(c: Config, db0: Storage, refs: set<string>, judged: set<Asset>, db: Storage, slug: string,
                        assets: seq<Row>)
    requires forall a :: a in judged ==> a.slug != slug
    requires db == After(c, db0, refs, judged) && ListsRows(db, slug, assets)
    ensures ListsRows(db0, slug, assets)
  {
    assert forall a: Asset :: a.slug == slug ==> a !in Condemned(c, db0, refs, judged);
  }

  function AssetsAt(slug: string, assets: seq<Row>): set<Asset> {
    set a | a in assets :: Asset(slug, a.sha)
  }

  lemma AssetsAtMore(db: Storage, slug: string, assets: seq<Row>, judged: set<Asset>, k: int)
    requires RowsStored(db, slug, assets) && 0 <= k < |assets|
    requires forall a :: a in judged ==> a.slug != slug
    ensures var a := Asset(slug, assets[k].sha);
      a !in judged + AssetsAt(slug, assets[..k]) && a in db.rows && db.rows[a] == assets[k].created
    ensures (judged + AssetsAt(slug, assets[..k])) + {Asset(slug, assets[k].sha)} ==
      judged + AssetsAt(slug, assets[..k + 1])
  {
    assert assets[k] in assets;
    assert assets[..k + 1] == assets[..k] + [assets[k]];
  }

  lemma AssetsAtAll(db: Storage, slug: string, assets: seq<Row>)
    requires ListsRows(db, slug, assets)
    ensures AssetsAt(slug, assets[..|assets|]) == RowsOf(db, slug)
  {
    assert assets[..|assets|] == assets;
  }

  /** Store and report agree with what was judged. */
  predicate Books(c: Config, db0: Storage, refs: set<string>, judged: set<Asset>, db: Storage, r: Report) {
    Accounts(c, db0, refs, judged, r) && db == After(c, db0, refs, judged)
  }

  function RowsIn(db: Storage, slugs: seq<string>): set<Asset> {
    set a | a in db.rows && a.slug in slugs
  }

  lemma RowsInMore(db: Storage, slugs: seq<string>, k: int)
    requires 0 <= k < |slugs| && forall i, j :: 0 <= i < j < |slugs| ==> slugs[i] != slugs[j]
    ensures RowsIn(db, slugs[..k + 1]) == RowsIn(db, slugs[..k]) + RowsOf(db, slugs[k])
    ensures forall a :: a in RowsIn(db, slugs[..k]) ==> a.slug != slugs[k]
  {
    assert slugs[..k + 1] == slugs[..k] + [slugs[k]];
  }

  lemma AllRowsIn(db: Storage, slugs: seq<string>)
    requires (set s | s in slugs) == AssetSlugs(db)
    ensures RowsIn(db, slugs) == db.rows.Keys
    ensures forall s :: s in slugs ==> AddressesOf(db, {s}) <= Referenced(db)
  {
    forall a | a in db.rows ensures a.slug in slugs {
      assert a.slug in AssetSlugs(db);
    }
    forall s | s in slugs ensures s in AssetSlugs(db) {
      assert s in set x | x in slugs;
    }
  }

  lemma AddsNothing(refs: set<string>, seen: set<string>, own: set<string>)
    requires seen == {} + own && own <= refs
    ensures refs + seen == refs
  {
  }

  lemma NothingJudged(c: Config, db: Storage, refs: set<string>, r: Report)
    requires r == Report(0, 0, [], 0, 0)
    ensures After(c, db, refs, {}) == db && Accounts(c, db, refs, {}, r)
  {
    assert Condemned(c, db, refs, {}) == {} && Elements(r.deleted) == {};
    assert db.rows - {} == db.rows && db.bytes - {} == db.bytes;
  }

  // ---------------------------------------------------------------- in the store's own records

  /** Some blob of a slug with a document row or an asset row holds the address. */
  ghost predicate IsReferenced(db: Storage, sha: string) {
    exists b: Blob :: b in db.html && sha in Windows(db.html[b])
                      && (b.slug in db.docRows || exists a: Asset :: a in db.rows && a.slug == b.slug)
  }

  /** Created at a time, by the first layout or, where that does not read it, the second, that lies the grace
      period or more back. */
  ghost predicate IsOld(c: Config, created: string) {
    exists t: int ::
      (c.parseIso(created) == Some(t) || (c.parseIso(created) == None && c.parseRfc3339(created) == Some(t)))
      && c.now - t >= c.grace
  }

  ghost predicate Reclaimable(c: Config, db: Storage, a: Asset) {
    a in db.rows && !IsReferenced(db, a.sha) && IsOld(c, db.rows[a])
  }

  lemma ReferencedExactly(db: Storage, sha: string)
    ensures sha in Referenced(db) <==> IsReferenced(db, sha)
  {
    if sha in Referenced(db) {
      var b :| b in db.html && b.slug in db.docRows + AssetSlugs(db) && sha in Windows(db.html[b]);
      if b.slug !in db.docRows {
        var a :| a in db.rows && a.slug == b.slug;
      }
    }
    if b: Blob :| b in db.html && sha in Windows(db.html[b])
                  && (b.slug in db.docRows || exists a: Asset :: a in db.rows && a.slug == b.slug) {
      assert b.slug in db.docRows + AssetSlugs(db);
    }
  }

  lemma OldExactly(c: Config, created: string)
    ensures PastGrace(c, created) <==> IsOld(c, created)
  {
  }

  /** An asset is doomed if and only if nothing the pass scans holds its address and it is old enough. */
  lemma DoomedExactly(c: Config, db: Storage)
    ensures forall a :: Doomed(c, db, Referenced(db), a) <==> Reclaimable(c, db, a)
    ensures Spared(Referenced(db), db.rows.Keys) == set a | a in db.rows && IsReferenced(db, a.sha)
  {
    hide Referenced, IsReferenced, PastGrace, IsOld;
    forall a: Asset ensures a.sha in Referenced(db) <==> IsReferenced(db, a.sha) {
      ReferencedExactly(db, a.sha);
    }
    forall created ensures PastGrace(c, created) <==> IsOld(c, created) {
      OldExactly(c, created);
    }
  }

  // ---------------------------------------------------------------- the service

  class AssetService {
    var db: Storage
    var report: Report

    constructor (db: Storage)
      ensures this.db == db && report == Report(0, 0, [], 0, 0)
    {
      this.db := db;
      report := Report(0, 0, [], 0, 0);
    }

    method ListVersions(slug: string) returns (versions: seq<nat>)
      ensures ListsVersions(db, slug, versions)
    {
      versions := [];
      var left := db.html.Keys;
      while left != {}
        invariant left <= db.html.Keys
        invariant forall n: nat :: n in versions <==> Version(slug, n) in db.html && Version(slug, n) !in left
      {
        var b :| b in left;
        if b.Version? && b.slug == slug {
          versions := versions + [b.n];
        }
        left := left - {b};
      }
    }

    method ListAssetMeta(slug: string) returns (assets: seq<Row>)
      ensures ListsRows(db, slug, assets)
    {
      assets := [];
      var left := db.rows.Keys;
      while left != {}
        invariant left <= db.rows.Keys
        invariant RowsStored(db, slug, assets)
        invariant forall a :: a in assets ==> Asset(slug, a.sha) !in left
        invariant forall sha :: Asset(slug, sha) in db.rows && Asset(slug, sha) !in left ==>
          Row(sha, db.rows[Asset(slug, sha)]) in assets
      {
        var a :| a in left;
        if a.slug == slug {
          assets := assets + [Row(a.sha, db.rows[a])];
        }
        left := left - {a};
      }
    }

    /** scanSlugInto: every version, then the draft. */
    method ScanSlugInto(slug: string, refs: References)
      modifies refs
      ensures refs.shas == old(refs.shas) + AddressesOf(db, {slug})
    {
      ghost var before, done: set<Blob> := refs.shas, {};
      var versions := ListVersions(slug);
      var k := 0;
      while k < |versions|
        invariant 0 <= k <= |versions|
        invariant forall b :: b in done <==> b.Version? && b.slug == slug && b.n in versions[..k]
        invariant refs.shas == before + HitsOf(db, done)
      {
        if Version(slug, versions[k]) in db.html {
          refs.ScanInto(db.html[Version(slug, versions[k])]);
        }
        HitsOfMore(db, done, Version(slug, versions[k]));
        done := done + {Version(slug, versions[k])};
        k := k + 1;
      }
      if Draft(slug) in db.html {
        refs.ScanInto(db.html[Draft(slug)]);
      }
      HitsOfMore(db, done, Draft(slug));
      assert versions[..k] == versions;
      HitsOfSlug(db, slug, done + {Draft(slug)});
    }

    /** allReferencedSHAs: every document, then the asset slugs no document covers. */
    method AllReferencedShas(assetSlugs: seq<string>, docs: seq<string>) returns (refs: References)
      ensures fresh(refs)
      ensures refs.shas == AddressesOf(db, (set s | s in docs) + (set s | s in assetSlugs))
    {
      refs := new References();
      var scanned: set<string> := {};
      var k := 0;
      assert AddressesOf(db, {}) == {};
      while k < |docs|
        invariant 0 <= k <= |docs| && scanned == set s | s in docs[..k]
        invariant refs.shas == AddressesOf(db, scanned)
      {
        ScanSlugInto(docs[k], refs);
        AddressesOfMore(db, scanned, docs[k]);
        scanned := scanned + {docs[k]};
        k := k + 1;
      }
      ghost var covered := scanned;
      k := 0;
      while k < |assetSlugs|
        invariant 0 <= k <= |assetSlugs| && covered == scanned + set s | s in assetSlugs[..k]
        invariant refs.shas == AddressesOf(db, covered)
      {
        if assetSlugs[k] !in scanned {
          ScanSlugInto(assetSlugs[k], refs);
          AddressesOfMore(db, covered, assetSlugs[k]);
        }
        covered := covered + {assetSlugs[k]};
        k := k + 1;
      }
    }

    /** One listed asset: keep it, or delete it and report it. */
    method GcAsset(c: Config, slug: string, a: Row, judged: set<string>)
      requires Asset(slug, a.sha) in db.rows && db.rows[Asset(slug, a.sha)] == a.created
      modifies this
      ensures JudgedAs(c, judged, Asset(slug, a.sha), a.created, old(db), old(report), db, report)
    {
      report := report.(assets := report.assets + 1);
      if a.sha in judged {
        report := report.(kept := report.kept + 1, referenced := report.referenced + 1);
        return;
      }
      var age := ParsedTime(c, a.created);
      if age.None? || c.now - age.value < c.grace {
        report := report.(kept := report.kept + 1);
        return;
      }
      var asset := Asset(slug, a.sha);
      if !c.dryRun {
        db := db.(bytes := db.bytes - {asset});
        db := db.(rows := db.rows - {asset});
      }
      report := report.(deleted := report.deleted + [asset]);
    }

    /** The same, in terms of everything judged so far. */
    method JudgeNext(c: Config, slug: string, a: Row, refs: set<string>, ghost db0: Storage, ghost judged: set<Asset>)
      requires Asset(slug, a.sha) !in judged && Asset(slug, a.sha) in db0.rows
      requires db0.rows[Asset(slug, a.sha)] == a.created
      requires Books(c, db0, refs, judged, db, report)
      modifies this
      ensures Books(c, db0, refs, judged + {Asset(slug, a.sha)}, db, report) && report.scanned == old(report.scanned)
    {
      ghost var db1, r1 := db, report;
      GcAsset(c, slug, a, refs);
      JudgedOne(c, db0, refs, judged, Asset(slug, a.sha), db1, r1, db, report);
    }

    /** The loop over a slug's assets. */
    method JudgeAll(c: Config, slug: string, assets: seq<Row>, refs: set<string>, ghost db0: Storage,
                    ghost judged: set<Asset>)
      requires ListsRows(db0, slug, assets)
      requires forall a :: a in judged ==> a.slug != slug
      requires Books(c, db0, refs, judged, db, report)
      modifies this
      ensures Books(c, db0, refs, judged + RowsOf(db0, slug), db, report)
      ensures report.scanned == old(report.scanned)
    {
      ghost var now := judged;
      var k := 0;
      while k < |assets|
        invariant 0 <= k <= |assets|
        invariant now == judged + AssetsAt(slug, assets[..k])
        invariant Books(c, db0, refs, now, db, report)
        invariant report.scanned == old(report.scanned)
      {
        ghost var asset := Asset(slug, assets[k].sha);
        AssetsAtMore(db0, slug, assets, judged, k);
        JudgeNext(c, slug, assets[k], refs, db0, now);
        now := now + {asset};
        k := k + 1;
      }
      AssetsAtAll(db0, slug, assets);
    }

    /** gcSlug: re-scan the slug's own HTML, then judge each of its assets. */
    method GcSlug(c: Config, slug: string, globalRefs: set<string>, ghost db0: Storage, ghost judged: set<Asset>)
      requires AddressesOf(db, {slug}) <= globalRefs
      requires forall a :: a in judged ==> a.slug != slug
      requires Books(c, db0, globalRefs, judged, db, report)
      modifies this
      ensures Books(c, db0, globalRefs, judged + RowsOf(db0, slug), db, report)
      ensures report.scanned == old(report.scanned)
    {
      var seen := new References();
      ScanSlugInto(slug, seen);
      var assets := ListAssetMeta(slug);
      AddsNothing(globalRefs, seen.shas, AddressesOf(db, {slug}));
      ListedAsAtStart(c, db0, globalRefs, judged, db, slug, assets);
      JudgeAll(c, slug, assets, globalRefs + seen.shas, db0, judged);
    }

    /** The loop over the asset-bearing slugs. */
    method GcSlugs(c: Config, assetSlugs: seq<string>, refs: set<string>)
      requires forall i, j :: 0 <= i < j < |assetSlugs| ==> assetSlugs[i] != assetSlugs[j]
      requires forall s :: s in assetSlugs ==> AddressesOf(db, {s}) <= refs
      requires report == Report(0, 0, [], 0, 0)
      modifies this
      ensures Books(c, old(db), refs, RowsIn(old(db), assetSlugs), db, report)
      ensures report.scanned == |assetSlugs|
    {
      ghost var db0 := db;
      NothingJudged(c, db0, refs, report);
      var k := 0;
      while k < |assetSlugs|
        invariant 0 <= k <= |assetSlugs| && report.scanned == k
        invariant db.html == db0.html
        invariant Books(c, db0, refs, RowsIn(db0, assetSlugs[..k]), db, report)
      {
        report := report.(scanned := report.scanned + 1);
        RowsInMore(db0, assetSlugs, k);
        GcSlug(c, assetSlugs[k], refs, db0, RowsIn(db0, assetSlugs[..k]));
        k := k + 1;
      }
      assert assetSlugs[..k] == assetSlugs;
    }

    /** GCAssets without interference: exactly the reclaimable assets go, row and bytes, unless it is a dry run;
        they are reported once each, and the counters account for every row. */
    method GcAssets(c: Config, assetSlugs: seq<string>, docs: seq<string>)
      requires (set s | s in assetSlugs) == AssetSlugs(db) && (set s | s in docs) == db.docRows
      requires forall i, j :: 0 <= i < j < |assetSlugs| ==> assetSlugs[i] != assetSlugs[j]
      requires report == Report(0, 0, [], 0, 0)
      modifies this
      ensures forall a :: a in report.deleted <==> Reclaimable(c, old(db), a)
      ensures forall i, j :: 0 <= i < j < |report.deleted| ==> report.deleted[i] != report.deleted[j]
      ensures db.html == old(db).html && db.docRows == old(db).docRows
      ensures forall a :: a in db.rows <==> a in old(db).rows && (c.dryRun || !Reclaimable(c, old(db), a))
      ensures forall a :: a in db.rows ==> db.rows[a] == old(db).rows[a]
      ensures forall a :: a in db.bytes <==> a in old(db).bytes && (c.dryRun || !Reclaimable(c, old(db), a))
      ensures report.scanned == |assetSlugs| && report.assets == |old(db).rows.Keys|
      ensures report.assets == report.kept + |report.deleted|
      ensures report.referenced == |set a | a in old(db).rows && IsReferenced(old(db), a.sha)|
    {
      ghost var db0 := db;
      var referenced := AllReferencedShas(assetSlugs, docs);
      assert referenced.shas == Referenced(db);
      AllRowsIn(db, assetSlugs);
      GcSlugs(c, assetSlugs, referenced.shas);
      Reclaimed(c, db0, db, report);
    }
  }

  lemma NoneTwice(s: seq<Asset>)
    requires |Elements(s)| == |s|
    ensures forall i, j :: 0 <= i < j < |s| ==> s[i] != s[j]
  {
    forall i, j | 0 <= i < j < |s| ensures s[i] != s[j] {
      if s[i] == s[j] {
        TwiceIsFewer(s, i, j);
      }
    }
  }

  lemma TwiceIsFewer(s: seq<Asset>, i: nat, j: nat)
    requires i < j < |s| && s[i] == s[j]
    ensures |Elements(s)| < |s|
  {
    var r := s[..j] + s[j + 1..];
    forall a ensures a in r <==> a in s {
      RestHas(s, i, j, a);
    }
    assert Elements(r) == Elements(s);
    FewerElements(r);
  }

  lemma RestHas(s: seq<Asset>, i: nat, j: nat, a: Asset)
    requires i < j < |s| && s[i] == s[j]
    ensures a in s[..j] + s[j + 1..] <==> a in s
  {
    var r := s[..j] + s[j + 1..];
    if a in s {
      var k :| 0 <= k < |s| && s[k] == a;
      assert r[if k < j then k else if k == j then i else k - 1] == a;
    }
  }

  lemma {:induction false} FewerElements(s: seq<Asset>)
    ensures |Elements(s)| <= |s|
  {
    if s == [] {
      assert Elements(s) == {};
    } else {
      FewerElements(s[..|s| - 1]);
      assert Elements(s) == Elements(s[..|s| - 1]) + {s[|s| - 1]};
    }
  }

  lemma Reclaimed(c: Config, db0: Storage, db: Storage, r: Report)
    requires Books(c, db0, Referenced(db0), db0.rows.Keys, db, r)
    ensures forall a :: a in r.deleted <==> Reclaimable(c, db0, a)
    ensures forall i, j :: 0 <= i < j < |r.deleted| ==> r.deleted[i] != r.deleted[j]
    ensures db.html == db0.html && db.docRows == db0.docRows
    ensures forall a :: a in db.rows <==> a in db0.rows && (c.dryRun || !Reclaimable(c, db0, a))
    ensures forall a :: a in db.rows ==> db.rows[a] == db0.rows[a]
    ensures forall a :: a in db.bytes <==> a in db0.bytes && (c.dryRun || !Reclaimable(c, db0, a))
    ensures r.referenced == |set a | a in db0.rows && IsReferenced(db0, a.sha)|
  {
    hide Referenced, Reclaimable, IsReferenced;
    DoomedExactly(c, db0);
    NoneTwice(r.deleted);
    var gone := Condemned(c, db0, Referenced(db0), db0.rows.Keys);
    assert forall a :: a in gone <==> Reclaimable(c, db0, a) by {
      assert forall a :: Doomed(c, db0, Referenced(db0), a) ==> a in db0.rows;
    }
    assert forall a :: a in r.deleted <==> a in Elements(r.deleted);
  }
}
