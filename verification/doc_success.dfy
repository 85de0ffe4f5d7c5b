/** When the operations on a document succeed, and what success leaves stored. */
module DocSuccess {
  import opened CommentTypes
  import opened DocLifecycle

  /** The version is the caller's, or one past the stored ones. */
  ghost predicate IsVersionFor(v: int, blobs: map<int, string>, explicit: int) {
    if explicit > 0 then v == explicit
    else v >= 1 && (forall n :: n in blobs ==> n < v) && (v == 1 || v - 1 in blobs)
  }

  /** The title brought, else the stored one, else the slug. */
  function TitleOf(slug: string, meta: Option<Meta>, title: string): string {
    if title != "" then title else if meta.Some? && meta.value.title != "" then meta.value.title else slug
  }

  predicate IsListed(versions: seq<Ref>, v: int) {
    exists i :: 0 <= i < |versions| && versions[i].n == v
  }

  /** Version v was added to the list unless it stood there, no other entry came or went, and the list is
      in order. */
  ghost predicate ListsAlso(was: seq<Ref>, now: seq<Ref>, v: int, stamp: string) {
    && multiset(now) == (if IsListed(was, v) then multiset(was) else multiset(was) + multiset{Ref(v, Some(stamp))})
    && forall i, j :: 0 <= i < j < |now| ==> now[i].n <= now[j].n
  }

  /** What a successful publish leaves of r: the text under v, v listed, the title; all else as it was. */
  ghost predicate Published(c: Config, r: Record, r': Record, text: string, v: int, title: string, now: string) {
    && r'.blobs == r.blobs[v := text]
    && r'.meta.Some? && r'.meta.value.title == TitleOf(c.slug, r.meta, title)
    && ListsAlso(if r.meta.Some? then r.meta.value.versions else [], r'.meta.value.versions, v, now)
  }

  lemma SectionSucceeds(c: Config, r: Record, html: string, explicit: int, title: string, now: string, o: Faults,
                        k: nat)
    ensures var (r', version) := PublishLocked(c, r, html, explicit, title, now, o, k);
      && (version.Some? <==>
            && (explicit > 0 || !o(k).Errs())
            && (o(k + 1).Done? || (o(k + 1).Lost? && explicit > 0 && explicit in r.blobs))
            && !o(k + 2).Errs() && !o(k + 3).Errs() && !o(k + 4).Errs() && !o(k + 5).Errs())
      && (version.Some? ==> IsVersionFor(version.value, r.blobs, explicit))
      && (version.Some? && o(k + 1).Done? && o(k + 4).Done? ==>
            && Published(c, r, r', html, version.value, title, now)
            && r'.draft == r.draft && ExtraOf(r'.meta) == ExtraOf(r.meta))
  {
    hide Sorted;
    var v := Resolve(r.blobs, explicit);
    var versions := VersionsOf(r.meta);
    SortedSorts(if Lists(versions, v) then versions else versions + [Ref(v, Some(now))]);
    assert Lists(versions, v) <==> IsListed(versions, v);
  }

  /** A publish succeeds if and only if the document is accepted, no call reports an error and the blob is
      there to be found after the write. The version is the caller's or one past the stored ones; what is
      stored then is the stamped text under it, the version listed beside the others, and the title. */
  lemma PublishSucceeds(c: Config, r: Record, op: Op, o: Faults)
    requires op.Publish?
    ensures var (r', version) := Do(c, r, op, o);
      && (version.Some? <==>
            && op.html != "" && c.size(op.html) <= c.maxBytes
            && (op.explicit > 0 || !o(0).Errs())
            && (o(1).Done? || (o(1).Lost? && op.explicit > 0 && op.explicit in r.blobs))
            && !o(2).Errs() && !o(3).Errs() && !o(4).Errs() && !o(5).Errs())
      && (version.Some? ==> IsVersionFor(version.value, r.blobs, op.explicit))
      && (version.Some? && o(1).Done? && o(4).Done? ==>
            && Published(c, r, r', c.stamp(op.html), version.value, op.title, op.now)
            && r'.draft == r.draft && ExtraOf(r'.meta) == ExtraOf(r.meta))
  {
    hide PublishLocked, Published;
    SectionSucceeds(c, r, c.stamp(op.html), op.explicit, op.title, op.now, o, 0);
  }

  /** A promotion succeeds if and only if there is a draft, reading it and publishing it report no error, and
      the write of the blob took place. It publishes the stamped draft one past the stored versions, and when its
      clean-up takes place the draft and its marker are gone. */
  lemma PromoteSucceeds(c: Config, r: Record, op: Op, o: Faults)
    requires op.Promote?
    ensures var (r', version) := Do(c, r, op, o);
      && (version.Some? <==>
            && r.draft.Some? && !o(0).Errs() && !o(1).Errs() && o(2).Done?
            && !o(3).Errs() && !o(4).Errs() && !o(5).Errs() && !o(6).Errs())
      && (version.Some? ==> IsVersionFor(version.value, r.blobs, 0))
      && (version.Some? && o(5).Done? ==>
            && Published(c, r, r', c.stamp(r.draft.value), version.value, op.title, op.now)
            && (o(7).Done? ==> r'.draft.None?)
            && (!o(8).Errs() && o(9).Done? ==> ExtraOf(r'.meta) == ExtraOf(r.meta) - {"draft"}))
  {
    hide PublishLocked, ListsAlso;
    if r.draft.Some? {
      SectionSucceeds(c, r, c.stamp(r.draft.value), 0, op.title, op.now, o, 1);
    }
  }

  /** Under the invariant a successful publish lists its version exactly once. */
  lemma ListedOnce(c: Config, r: Record, op: Op, o: Faults)
    requires Inv(r) && op.Publish? && Do(c, r, op, o).1.Some? && !o(4).Lost?
    ensures var (r', version) := Do(c, r, op, o);
      && r'.meta.Some?
      && var versions := r'.meta.value.versions;
      exists i :: 0 <= i < |versions| && versions[i].n == version.value
             && forall j :: 0 <= j < |versions| && j != i ==> versions[j].n != version.value
  {
    hide Do, Lists;
    var (r', version) := Do(c, r, op, o);
    PublishedIsListed(c, r, op, o);
    OpKeepsInv(c, r, op, o);
    FoundOnce(r'.meta.value.versions, version.value);
  }

  lemma FoundOnce(versions: seq<Ref>, v: int)
    requires Ascending(versions) && Lists(versions, v)
    ensures exists i :: 0 <= i < |versions| && versions[i].n == v
                   && forall j :: 0 <= j < |versions| && j != i ==> versions[j].n != v
  {
    var i :| 0 <= i < |versions| && versions[i].n == v;
    forall j | 0 <= j < |versions| && j != i ensures versions[j].n != v {
      assert if i < j then versions[i].n < versions[j].n else versions[j].n < versions[i].n;
    }
  }

  /** When every call is done, what the owner asks for happens: a version comes back from each accepted
      document and from each promotion of a draft. */
  lemma AllDoneSucceeds(c: Config, r: Record, op: Op, o: Faults)
    requires forall k: nat :: o(k).Done?
    ensures op.Publish? && op.html != "" && c.size(op.html) <= c.maxBytes ==> Do(c, r, op, o).1.Some?
    ensures op.Promote? && r.draft.Some? ==> Do(c, r, op, o).1.Some?
  {
    hide Do;
    if op.Publish? {
      PublishSucceeds(c, r, op, o);
    } else if op.Promote? {
      PromoteSucceeds(c, r, op, o);
    }
  }
}
