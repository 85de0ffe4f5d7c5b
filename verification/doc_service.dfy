/** The document service as the program runs it: each operation reads and rewrites the store call by call,
    and does exactly what the lifecycle says. */
module DocServiceMachine {
  import opened CommentTypes
  import opened DocLifecycle
  import opened DocSuccess

  lemma HasMember(s: set<int>)
    requires s != {}
    ensures exists n :: n in s
  {
    if forall n :: n !in s {
      assert false;
    }
  }

  // ---------------------------------------------------------------- what callers are promised

  /** Blobs, listed versions and share code are as they were. */
  predicate PublishedKept(before: Record, after: Record) {
    && after.blobs == before.blobs && VersionsOf(after.meta) == VersionsOf(before.meta)
    && ShareHash(after.meta) == ShareHash(before.meta)
  }

  /** Only that key of the extra fields may differ. */
  predicate SameBut(key: string, before: Option<Meta>, after: Option<Meta>) {
    ExtraOf(after) - {key} == ExtraOf(before) - {key}
  }

  predicate DraftMarked(meta: Option<Meta>, now: string) {
    "draft" in ExtraOf(meta) && ExtraOf(meta)["draft"] == DraftMark(now)
  }

  lemma PublishedKeptInv(before: Record, after: Record)
    requires PublishedKept(before, after)
    ensures Inv(after) <==> Inv(before)
  {
  }

  predicate IsAbove(version: int, blobs: map<int, string>) {
    forall n :: n in blobs ==> n < version
  }

  /** What the lifecycle's laws say of a publish or a promotion. */
  lemma PublishLaws(c: Config, r: Record, op: Op, o: Faults)
    requires op.Publish? || op.Promote?
    ensures Inv(r) ==> Inv(Do(c, r, op, o).0)
    ensures ShareHash(Do(c, r, op, o).0.meta) == ShareHash(r.meta)
    ensures op.Promote? || op.explicit <= 0 ==> BlobsKept(r.blobs, Do(c, r, op, o).0.blobs)
    ensures (op.Promote? || op.explicit <= 0) && Do(c, r, op, o).1.Some? ==> IsAbove(Do(c, r, op, o).1.value, r.blobs)
  {
    hide Inv, Do, ShareHash, BlobsKept;
    OpKeepsInvIf(c, r, op, o);
    ShareCodeChanges(c, r, op, o);
    if op.Promote? || op.explicit <= 0 {
      NothingOverwritten(c, r, op, o);
    }
  }

  class DocService {
    const config: Config
    var blobs: map<int, string>
    var draft: Option<string>
    var meta: Option<Meta>

    constructor (config: Config)
      ensures this.config == config && Stored() == Record(map[], None, None)
    {
      this.config := config;
      blobs, draft, meta := map[], None, None;
    }

    function Stored(): Record
      reads this
    {
      Record(blobs, draft, meta)
    }

    method ListVersions() returns (versions: seq<int>)
      ensures forall n :: n in versions <==> n in blobs
    {
      versions := [];
      var left := blobs.Keys;
      while left != {}
        invariant left <= blobs.Keys
        invariant forall n :: n in versions <==> n in blobs && n !in left
      {
        HasMember(left);
        var n :| n in left;
        versions := versions + [n];
        left := left - {n};
      }
    }

    /** resolveVersion, None when the listing fails. */
    method ResolveVersion(explicit: int, listing: Outcome) returns (version: Option<int>)
      ensures version == if explicit <= 0 && listing.Errs() then None else Some(Resolve(blobs, explicit))
    {
      if explicit > 0 {
        return Some(explicit);
      }
      if listing.Errs() {
        return None;
      }
      var existing := ListVersions();
      var maxV, i := 0, 0;
      while i < |existing|
        invariant 0 <= i <= |existing| && maxV >= 0 && (maxV == 0 || maxV in existing[..i])
        invariant forall n :: n in existing[..i] ==> n <= maxV
      {
        assert existing[..i + 1] == existing[..i] + [existing[i]];
        if existing[i] > maxV {
          maxV := existing[i];
        }
        i := i + 1;
      }
      assert existing[..i] == existing;
      assert IsTop(blobs.Keys, maxV);
      return Some(maxV + 1);
    }

    /** The version list a publish writes: the old one, the new version if it is not there, in order. */
    method MergedVersions(prev: seq<Ref>, version: int, now: string) returns (versions: seq<Ref>)
      ensures versions == Sorted(if Lists(prev, version) then prev else prev + [Ref(version, Some(now))])
    {
      var found, i := false, 0;
      while i < |prev|
        invariant 0 <= i <= |prev| && found == exists j :: 0 <= j < i && prev[j].n == version
      {
        if prev[i].n == version {
          found := true;
          break;
        }
        i := i + 1;
      }
      var all := if found then prev else prev + [Ref(version, Some(now))];
      var v := new Ref[|all|](k requires 0 <= k < |all| => all[k]);
      assert v[..] == all;
      SortVersions(v);
      versions := v[..];
    }

    method Write(m: Meta, o: Outcome)
      modifies this`meta
      ensures Stored() == PutMeta(old(Stored()), m, o)
    {
      if o.Acts() {
        meta := Some(m);
      }
    }

    /** upsertMeta; ok is false when a call reported an error. */
    method UpsertMeta(title: string, version: int, now: string, read: Outcome, write: Outcome) returns (ok: bool)
      modifies this`meta
      ensures ok == (!read.Errs() && !write.Errs())
      ensures Stored() == if read.Errs() then old(Stored())
                          else PutMeta(old(Stored()), Upserted(config.slug, old(meta), title, version, now), write)
    {
      hide Sorted, Lists;
      if read.Errs() {
        return false;
      }
      var prev := if meta.Some? then meta.value else Meta(config.slug, [], map[]);
      var versions := MergedVersions(prev.versions, version, now);
      var newTitle := prev.title;
      if title != "" {
        newTitle := title;
      }
      if newTitle == "" {
        newTitle := config.slug;
      }
      Write(Meta(newTitle, versions, prev.extra), write);
      ok := !write.Errs();
    }

    /** setDraftMeta: the marker, and a title where there is one, go into the metadata, which is made if there
        was none; versions, share code and every other field stay. */
    method SetDraftMeta(title: string, now: string, read: Outcome, write: Outcome) returns (ok: bool)
      modifies this`meta
      ensures Stored() == if read.Errs() then old(Stored())
                          else PutMeta(old(Stored()), Drafted(config.slug, old(meta), title, now), write)
      ensures PublishedKept(old(Stored()), Stored()) && SameBut("draft", old(meta), meta)
      ensures Inv(Stored()) <==> Inv(old(Stored()))
      ensures meta == old(meta) || DraftMarked(meta, now)
      ensures ok <==> !read.Errs() && !write.Errs()
      ensures ok && !write.Lost? ==> DraftMarked(meta, now)
      ensures ok && !write.Lost? ==> meta.Some? && meta.value.title == TitleOf(config.slug, old(meta), title)
      ensures meta != old(meta) && title != "" ==> meta.value.title == title
    {
      if read.Errs() {
        return false;
      }
      var prev := if meta.Some? then meta.value else Meta(config.slug, [], map[]);
      var newTitle := prev.title;
      if title != "" {
        newTitle := title;
      }
      if newTitle == "" {
        newTitle := config.slug;
      }
      Write(Meta(newTitle, prev.versions, prev.extra["draft" := DraftMark(now)]), write);
      ok := !write.Errs();
      PublishedKeptInv(old(Stored()), Stored());
    }

    /** publishLocked. */
    method PublishSection(html: string, explicit: int, title: string, now: string, o: Faults, k: nat)
      returns (version: Option<int>)
      modifies this`blobs, this`meta
      ensures (Stored(), version) == PublishLocked(config, old(Stored()), html, explicit, title, now, o, k)
      ensures version.Some? <==>
        && (explicit > 0 || !o(k).Errs())
        && (o(k + 1).Done? || (o(k + 1).Lost? && explicit > 0 && explicit in old(blobs)))
        && !o(k + 2).Errs() && !o(k + 3).Errs() && !o(k + 4).Errs() && !o(k + 5).Errs()
      ensures version.Some? ==> IsVersionFor(version.value, old(blobs), explicit)
      ensures version.Some? && o(k + 1).Done? && o(k + 4).Done? ==>
        Published(config, old(Stored()), Stored(), html, version.value, title, now)
    {
      hide Published, Upserted, IsVersionFor;
      SectionSucceeds(config, Stored(), html, explicit, title, now, o, k);
      var v := ResolveVersion(explicit, o(k));
      if v.None? {
        return None;
      }
      if o(k + 1).Acts() {
        blobs := blobs[v.value := html];
      }
      if o(k + 1).Errs() {
        return None;
      }
      if o(k + 2).Errs() || v.value !in blobs {
        return None;
      }
      var ok := UpsertMeta(title, v.value, now, o(k + 3), o(k + 4));
      if !ok || o(k + 5).Errs() {
        return None;
      }
      return v;
    }

    /** Publish: a refused document changes nothing; an accepted one keeps the invariant, the draft and the share
        code whatever fails. Reported success means the version's blob is stored and, unless the store lied, is
        the stamped document; without an explicit version it lies above all others and no stored blob changes. */
    method Publish(html: string, explicit: int, title: string, now: string, o: Faults) returns (version: Option<int>)
      modifies this
      ensures (Stored(), version) == Do(config, old(Stored()), Op.Publish(html, explicit, title, now), o)
      ensures !Accepted(config, html) ==> version.None? && Stored() == old(Stored())
      ensures Inv(old(Stored())) ==> Inv(Stored())
      ensures draft == old(draft) && ShareHash(meta) == ShareHash(old(meta))
      ensures version.Some? ==> version.value in blobs && (o(1).Acts() ==> blobs[version.value] == config.stamp(html))
      ensures explicit <= 0 ==> BlobsKept(old(blobs), blobs) && (version.Some? ==> IsAbove(version.value, old(blobs)))
      ensures version.Some? <==>
        && Accepted(config, html) && (explicit > 0 || !o(0).Errs())
        && (o(1).Done? || (o(1).Lost? && explicit > 0 && explicit in old(blobs)))
        && !o(2).Errs() && !o(3).Errs() && !o(4).Errs() && !o(5).Errs()
      ensures version.Some? ==> IsVersionFor(version.value, old(blobs), explicit)
      ensures version.Some? && o(1).Done? && o(4).Done? ==>
        Published(config, old(Stored()), Stored(), config.stamp(html), version.value, title, now)
    {
      hide Published, IsVersionFor;
      PublishLaws(config, Stored(), Op.Publish(html, explicit, title, now), o);
      PublishSucceeds(config, Stored(), Op.Publish(html, explicit, title, now), o);
      if html == "" {
        return None;
      }
      if config.size(html) > config.maxBytes {
        return None;
      }
      version := PublishSection(config.stamp(html), explicit, title, now, o, 0);
    }

    /** SaveDraft: a refused text changes nothing; an accepted one can only become the draft, stamped, and no
        version, blob or share code is touched whatever fails. Reported success means draft and marker are there,
        unless the store lied. */
    method SaveDraft(html: string, title: string, now: string, o: Faults) returns (ok: bool)
      modifies this
      ensures (Stored(), None) == Do(config, old(Stored()), Op.SaveDraft(html, title, now), o)
      ensures PublishedKept(old(Stored()), Stored()) && SameBut("draft", old(meta), meta)
      ensures Inv(Stored()) <==> Inv(old(Stored()))
      ensures !Accepted(config, html) ==> !ok && Stored() == old(Stored())
      ensures draft == old(draft) || draft == Some(config.stamp(html))
      ensures ok <==> Accepted(config, html) && !o(0).Errs() && !o(1).Errs() && !o(2).Errs()
      ensures ok && !o(2).Lost? ==> meta.Some? && meta.value.title == TitleOf(config.slug, old(meta), title)
      ensures ok && !o(0).Lost? ==> draft == Some(config.stamp(html))
      ensures ok && !o(2).Lost? ==> DraftMarked(meta, now)
    {
      if html == "" || config.size(html) > config.maxBytes {
        return false;
      }
      if o(0).Acts() {
        draft := Some(config.stamp(html));
      }
      if o(0).Errs() {
        return false;
      }
      ok := SetDraftMeta(title, now, o(1), o(2));
    }

    /** clearDraftMeta: the marker goes and nothing else; ok is false when a call reported an error. */
    method ClearDraft(o: Faults, k: nat) returns (ok: bool)
      modifies this`meta
      ensures Stored() == ClearDraftMeta(old(Stored()), o, k)
      ensures PublishedKept(old(Stored()), Stored()) && SameBut("draft", old(meta), meta)
      ensures Inv(Stored()) <==> Inv(old(Stored()))
      ensures meta == old(meta) || "draft" !in ExtraOf(meta)
      ensures ok && !o(k + 1).Lost? ==> "draft" !in ExtraOf(meta)
    {
      if o(k).Errs() || meta.None? || "draft" !in meta.value.extra {
        return !o(k).Errs();
      }
      Write(meta.value.(extra := meta.value.extra - {"draft"}), o(k + 1));
      ok := !o(k + 1).Errs();
      PublishedKeptInv(old(Stored()), Stored());
    }

    /** Promote: past the publish section nothing fails it, so a version is returned exactly when there was a draft
        to publish and that section succeeded. It lies above all stored ones, which keep their bytes; the
        invariant and the share code are kept whatever fails, and the draft can only be the old one or gone. */
    method Promote(title: string, now: string, o: Faults) returns (version: Option<int>)
      modifies this
      ensures (Stored(), version) == Do(config, old(Stored()), Op.Promote(title, now), o)
      ensures o(0).Errs() || old(draft).None? ==> version.None? && Stored() == old(Stored())
      ensures version.Some? <==>
        && old(draft).Some? && !o(0).Errs() && !o(1).Errs() && o(2).Done?
        && !o(3).Errs() && !o(4).Errs() && !o(5).Errs() && !o(6).Errs()
      ensures version.Some? ==> IsVersionFor(version.value, old(blobs), 0)
      ensures version.Some? && o(5).Done? ==>
        Published(config, old(Stored()), Stored(), config.stamp(old(draft).value), version.value, title, now)
      ensures Inv(old(Stored())) ==> Inv(Stored())
      ensures BlobsKept(old(blobs), blobs) && ShareHash(meta) == ShareHash(old(meta))
      ensures version.Some? ==> IsAbove(version.value, old(blobs)) && version.value in blobs
      ensures version.Some? && o(2).Acts() ==> blobs[version.value] == config.stamp(old(draft).value)
      ensures draft == old(draft) || (draft.None? && version.Some?)
      ensures version.Some? && !o(7).FailedBefore? && !o(7).Lost? ==> draft.None?
    {
      hide Published, IsVersionFor;
      PublishLaws(config, Stored(), Op.Promote(title, now), o);
      PromoteSucceeds(config, Stored(), Op.Promote(title, now), o);
      if o(0).Errs() || draft.None? {
        return None;
      }
      version := PublishSection(config.stamp(draft.value), 0, title, now, o, 1);
      if version.None? {
        return;
      }
      if o(7).Acts() {
        draft := None;
      }
      var cleared := ClearDraft(o, 8);
    }

    /** Remove: blobs go first and all at once, the metadata only after a blob deletion and a row deletion that
        reported no error. Reported success means nothing is left, unless the store lied. The wipe of the comments
        is the last call. */
    method Remove(o: Faults) returns (ok: bool)
      modifies this
      ensures (Stored(), None) == Do(config, old(Stored()), Op.Remove, o)
      ensures (blobs == old(blobs) && draft == old(draft)) || (blobs == map[] && draft == None)
      ensures meta == old(meta) || (meta == None && !o(0).Errs() && !o(1).Errs())
      ensures ok <==> !o(0).Errs() && !o(1).Errs() && !o(2).Errs() && !o(3).Errs()
      ensures ok && !o(0).Lost? && !o(2).Lost? ==> Stored() == Record(map[], None, None)
      ensures Inv(old(Stored())) ==> (Inv(Stored()) <==> !RemovesHalf(old(Stored()), Op.Remove, o))
    {
      OpKeepsInvIf(config, Stored(), Op.Remove, o);
      if o(0).Acts() {
        blobs, draft := map[], None;
      }
      if o(0).Errs() || o(1).Errs() {
        return false;
      }
      if o(2).Acts() {
        meta := None;
      }
      ok := !o(2).Errs() && !o(3).Errs();
    }

    /** GenerateCode: for an existing document the share code is the new one or, where the write failed, the old
        one; blobs, versions, draft and every other field stay. */
    method GenerateCode(codeHash: string, now: string, o: Faults) returns (ok: bool)
      modifies this
      ensures (Stored(), None) == Do(config, old(Stored()), Op.GenerateCode(codeHash, now), o)
      ensures blobs == old(blobs) && draft == old(draft) && VersionsOf(meta) == VersionsOf(old(meta))
      ensures SameBut("share", old(meta), meta) && (Inv(Stored()) <==> Inv(old(Stored())))
      ensures meta == old(meta) || ShareHash(meta) == codeHash
      ensures ok <==> old(meta).Some? && !o(0).Errs() && !o(1).Errs()
      ensures ok && !o(1).Lost? ==> ShareHash(meta) == codeHash
    {
      if o(0).Errs() || meta.None? {
        return false;
      }
      Write(meta.value.(extra := meta.value.extra["share" := Share(codeHash, now)]), o(1));
      ok := !o(1).Errs();
    }

    /** RevokeCode: the share code is gone or, where the write failed, the old one; nothing else changes. */
    method RevokeCode(o: Faults) returns (ok: bool)
      modifies this
      ensures (Stored(), None) == Do(config, old(Stored()), Op.RevokeCode, o)
      ensures blobs == old(blobs) && draft == old(draft) && VersionsOf(meta) == VersionsOf(old(meta))
      ensures SameBut("share", old(meta), meta) && (Inv(Stored()) <==> Inv(old(Stored())))
      ensures meta == old(meta) || ShareHash(meta) == ""
      ensures ok <==> old(meta).Some? && !o(0).Errs() && ("share" in ExtraOf(old(meta)) ==> !o(1).Errs())
      ensures ok && !o(1).Lost? ==> ShareHash(meta) == ""
    {
      if o(0).Errs() || meta.None? {
        return false;
      }
      if "share" !in meta.value.extra {
        return true;
      }
      Write(meta.value.(extra := meta.value.extra - {"share"}), o(1));
      ok := !o(1).Errs();
    }
  }

  lemma OpKeepsInvIf(c: Config, r: Record, op: Op, o: Faults)
    ensures Inv(r) ==> (Inv(Do(c, r, op, o).0) <==> !RemovesHalf(r, op, o))
  {
    hide Inv, Do, RemovesHalf;
    if Inv(r) { OpKeepsInv(c, r, op, o); }
  }
}
