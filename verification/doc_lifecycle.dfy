/** One document's life over a store whose calls can fail at any point: versions, draft, metadata and share
    code. Everything here runs under the slug's lock, so operations on a slug come one after another. */
module DocLifecycle {
  import opened CommentTypes

  /** How a store call ends: done, acknowledged without effect, or reporting an error before or after the
      effect took place. */
  datatype Outcome = Done | Lost | FailedBefore | FailedAfter
  {
    predicate Acts() { Done? || FailedAfter? }
    predicate Errs() { FailedBefore? || FailedAfter? }
  }

  /** The outcome of the operation's k-th store call. */
  type Faults = nat -> Outcome

  datatype Ref = Ref(n: int, created: Option<string>)

  datatype Extra = Share(codeHash: string, createdAt: string) | DraftMark(updatedAt: string) | Other(text: string)

  datatype Meta = Meta(title: string, versions: seq<Ref>, extra: map<string, Extra>)

  datatype Record = Record(blobs: map<int, string>, draft: Option<string>, meta: Option<Meta>)

  /** stamp is the artifact stamper, size the length of a text in bytes, maxBytes the limit. */
  datatype Config = Config(slug: string, maxBytes: int, size: string -> int, stamp: string -> string)

  // ---------------------------------------------------------------- the sort of the version list

  function Insert(s: seq<Ref>, x: Ref): seq<Ref> {
    if s == [] || s[|s| - 1].n <= x.n then s + [x] else Insert(s[..|s| - 1], x) + [s[|s| - 1]]
  }

  function Sorted(s: seq<Ref>): seq<Ref> {
    if s == [] then [] else Insert(Sorted(s[..|s| - 1]), s[|s| - 1])
  }

  predicate NonDescending(s: seq<Ref>) {
    forall i, j :: 0 <= i < j < |s| ==> s[i].n <= s[j].n
  }

  predicate Ascending(s: seq<Ref>) {
    forall i, j :: 0 <= i < j < |s| ==> s[i].n < s[j].n
  }

  lemma {:induction false} InsertMembers(s: seq<Ref>, x: Ref)
    ensures |Insert(s, x)| == |s| + 1
    ensures multiset(Insert(s, x)) == multiset(s) + multiset{x}
    ensures forall y :: y in Insert(s, x) <==> y in s || y == x
  {
    if s != [] && s[|s| - 1].n > x.n {
      InsertMembers(s[..|s| - 1], x);
      assert s == s[..|s| - 1] + [s[|s| - 1]];
    }
  }

  lemma {:induction false} InsertSorts(s: seq<Ref>, x: Ref)
    requires NonDescending(s)
    ensures NonDescending(Insert(s, x))
    ensures Ascending(s) && (forall y :: y in s ==> y.n != x.n) ==> Ascending(Insert(s, x))
  {
    if s != [] && s[|s| - 1].n > x.n {
      InsertSorts(s[..|s| - 1], x);
      InsertMembers(s[..|s| - 1], x);
      var r := Insert(s[..|s| - 1], x);
      assert forall i :: 0 <= i < |r| ==> r[i] in r;
    }
  }

  /** The result is in order, and a permutation of the input. */
  lemma {:induction false} SortedSorts(s: seq<Ref>)
    ensures NonDescending(Sorted(s)) && multiset(Sorted(s)) == multiset(s)
  {
    if s != [] {
      SortedSorts(s[..|s| - 1]);
      InsertSorts(Sorted(s[..|s| - 1]), s[|s| - 1]);
      InsertMembers(Sorted(s[..|s| - 1]), s[|s| - 1]);
      assert s == s[..|s| - 1] + [s[|s| - 1]];
    }
  }

  lemma {:induction false} SortedLeaves(s: seq<Ref>)
    requires Ascending(s)
    ensures Sorted(s) == s
  {
    if s != [] {
      SortedLeaves(s[..|s| - 1]);
      assert s == s[..|s| - 1] + [s[|s| - 1]];
    }
  }

  /** sortVersions: insertion by adjacent swaps, in place. */
  method SortVersions(v: array<Ref>)
    modifies v
    ensures v[..] == Sorted(old(v[..]))
  {
    ghost var input := v[..];
    if v.Length == 0 {
      return;
    }
    var i := 1;
    assert input[..1][..0] == [];
    while i < v.Length
      invariant 1 <= i <= v.Length
      invariant v[..i] == Sorted(input[..i])
      invariant v[i..] == input[i..]
    {
      assert v[i] == v[i..][0] == input[i];
      assert v[i + 1..] == v[i..][1..] == input[i + 1..];
      Sink(v, i);
      assert input[..i + 1][..i] == input[..i];
      i := i + 1;
    }
    assert v[..i] == v[..] && input[..i] == input;
  }

  /** The inner loop: element i sinks to its place among the ones before it. */
  method Sink(v: array<Ref>, i: int)
    requires 0 < i < v.Length
    modifies v
    ensures v[..i + 1] == Insert(old(v[..i]), old(v[i])) && v[i + 1..] == old(v[i + 1..])
  {
    hide Insert;
    ghost var s, x := v[..i], v[i];
    var j := i;
    assert s[..i] == s && s[i..] == [] && Insert(s, x) + [] == Insert(s, x);
    assert v[..i + 1] == s + [x];
    while j > 0 && v[j - 1].n > v[j].n
      invariant 0 <= j <= i && v[j] == x
      invariant v[..i + 1] == s[..j] + [x] + s[j..]
      invariant Insert(s, x) == Insert(s[..j], x) + s[j..]
      invariant v[i + 1..] == old(v[i + 1..])
    {
      assert v[..i + 1][j - 1] == v[j - 1] == s[j - 1];
      InsertPasses(s, x, j);
      v[j - 1], v[j] := v[j], v[j - 1];
      assert v[..i + 1] == s[..j - 1] + [x] + s[j - 1..];
      j := j - 1;
    }
    assert j > 0 ==> v[..i + 1][j - 1] == s[j - 1];
    InsertRests(s, x, j);
  }

  lemma InsertPasses(s: seq<Ref>, x: Ref, j: int)
    requires 0 < j <= |s| && s[j - 1].n > x.n && Insert(s, x) == Insert(s[..j], x) + s[j..]
    ensures Insert(s, x) == Insert(s[..j - 1], x) + s[j - 1..]
  {
    assert s[..j][..j - 1] == s[..j - 1];
    assert s[j - 1..] == [s[j - 1]] + s[j..];
  }

  lemma InsertRests(s: seq<Ref>, x: Ref, j: int)
    requires 0 <= j <= |s| && (j == 0 || s[j - 1].n <= x.n) && Insert(s, x) == Insert(s[..j], x) + s[j..]
    ensures Insert(s, x) == s[..j] + [x] + s[j..]
  {
  }

  // ---------------------------------------------------------------- the operations, as the program promises them

  /** The largest stored version, or zero. */
  predicate IsTop(s: set<int>, m: int) {
    m >= 0 && (m == 0 || m in s) && forall n :: n in s ==> n <= m
  }

  lemma {:induction false} TopExists(s: set<int>)
    ensures exists m :: IsTop(s, m)
    decreases s
  {
    if x :| x in s {
      TopExists(s - {x});
      var m :| IsTop(s - {x}, m);
      assert forall n :: n in s ==> n == x || n in s - {x};
      assert IsTop(s, if x > m then x else m);
    } else {
      assert IsTop(s, 0);
    }
  }

  ghost function MaxOf(s: set<int>): (m: int)
    ensures IsTop(s, m)
  {
    TopExists(s);
    var m :| IsTop(s, m);
    m
  }

  /** The version a publish gets: the caller's, or one more than every stored one. */
  ghost function Resolve(blobs: map<int, string>, explicit: int): int {
    if explicit > 0 then explicit else MaxOf(blobs.Keys) + 1
  }

  function Titled(slug: string, prev: Option<Meta>, title: string): string {
    var before := if prev.Some? then prev.value.title else slug;
    if title != "" then title else if before != "" then before else slug
  }

  function VersionsOf(meta: Option<Meta>): seq<Ref> {
    if meta.Some? then meta.value.versions else []
  }

  function ExtraOf(meta: Option<Meta>): map<string, Extra> {
    if meta.Some? then meta.value.extra else map[]
  }

  predicate Lists(versions: seq<Ref>, n: int) {
    exists i :: 0 <= i < |versions| && versions[i].n == n
  }

  function Upserted(slug: string, prev: Option<Meta>, title: string, version: int, now: string): Meta {
    var versions := VersionsOf(prev);
    Meta(Titled(slug, prev, title),
         Sorted(if Lists(versions, version) then versions else versions + [Ref(version, Some(now))]),
         ExtraOf(prev))
  }

  function Drafted(slug: string, prev: Option<Meta>, title: string, now: string): Meta {
    Meta(Titled(slug, prev, title), VersionsOf(prev), ExtraOf(prev)["draft" := DraftMark(now)])
  }

  function PutMeta(r: Record, meta: Meta, o: Outcome): Record {
    if o.Acts() then r.(meta := Some(meta)) else r
  }

  /** The publish section; its store calls are numbered from k. The version is None when it fails. */
  ghost function PublishLocked(c: Config, r: Record, html: string, explicit: int, title: string, now: string,
                               o: Faults, k: nat): (Record, Option<int>)
  {
    if explicit <= 0 && o(k).Errs() then (r, None) else
    var v := Resolve(r.blobs, explicit);
    var r1 := if o(k + 1).Acts() then r.(blobs := r.blobs[v := html]) else r;
    if o(k + 1).Errs() || o(k + 2).Errs() || v !in r1.blobs || o(k + 3).Errs() then (r1, None) else
    var r2 := PutMeta(r1, Upserted(c.slug, r1.meta, title, v, now), o(k + 4));
    (r2, if o(k + 4).Errs() || o(k + 5).Errs() then None else Some(v))
  }

  /** Clearing the draft marker; its errors are only logged. */
  function ClearDraftMeta(r: Record, o: Faults, k: nat): Record {
    if o(k).Errs() || r.meta.None? || "draft" !in r.meta.value.extra then r
    else PutMeta(r, r.meta.value.(extra := r.meta.value.extra - {"draft"}), o(k + 1))
  }

  datatype Op =
    | Publish(html: string, explicit: int, title: string, now: string)
    | SaveDraft(html: string, title: string, now: string)
    | Promote(title: string, now: string)
    | Remove
    | GenerateCode(codeHash: string, now: string)
    | RevokeCode

  predicate Accepted(c: Config, html: string) {
    html != "" && c.size(html) <= c.maxBytes
  }

  ghost function Do(c: Config, r: Record, op: Op, o: Faults): (Record, Option<int>) {
    match op
    case Publish(html, explicit, title, now) =>
      if Accepted(c, html) then PublishLocked(c, r, c.stamp(html), explicit, title, now, o, 0) else (r, None)
    case SaveDraft(html, title, now) =>
      if !Accepted(c, html) then (r, None) else
      var r1 := if o(0).Acts() then r.(draft := Some(c.stamp(html))) else r;
      if o(0).Errs() || o(1).Errs() then (r1, None) else (PutMeta(r1, Drafted(c.slug, r1.meta, title, now), o(2)), None)
    case Promote(title, now) =>
      if o(0).Errs() || r.draft.None? then (r, None) else
      var p := PublishLocked(c, r, c.stamp(r.draft.value), 0, title, now, o, 1);
      if p.1.None? then p else
      (ClearDraftMeta(if o(7).Acts() then p.0.(draft := None) else p.0, o, 8), p.1)
    case Remove =>
      var r1 := if o(0).Acts() then r.(blobs := map[], draft := None) else r;
      if o(0).Errs() || o(1).Errs() then (r1, None) else (if o(2).Acts() then r1.(meta := None) else r1, None)
    case GenerateCode(codeHash, now) =>
      if o(0).Errs() || r.meta.None? then (r, None)
      else (PutMeta(r, r.meta.value.(extra := r.meta.value.extra["share" := Share(codeHash, now)]), o(1)), None)
    case RevokeCode =>
      if o(0).Errs() || r.meta.None? || "share" !in r.meta.value.extra then (r, None)
      else (PutMeta(r, r.meta.value.(extra := r.meta.value.extra - {"share"}), o(1)), None)
  }

  // ---------------------------------------------------------------- what every operation keeps

  /** Listed versions ascend strictly, and each has a blob. */
  predicate Inv(r: Record) {
    var versions := VersionsOf(r.meta);
    Ascending(versions) && forall i :: 0 <= i < |versions| ==> versions[i].n in r.blobs
  }

  lemma UpsertedAscends(slug: string, prev: Option<Meta>, title: string, v: int, now: string, blobs: map<int, string>)
    requires Ascending(VersionsOf(prev)) && v in blobs
    requires forall i :: 0 <= i < |VersionsOf(prev)| ==> VersionsOf(prev)[i].n in blobs
    ensures Ascending(Upserted(slug, prev, title, v, now).versions)
    ensures forall y :: y in Upserted(slug, prev, title, v, now).versions ==> y.n in blobs
    ensures Lists(Upserted(slug, prev, title, v, now).versions, v)
  {
    hide Insert;
    var s, x := VersionsOf(prev), Ref(v, Some(now));
    if Lists(s, v) {
      SortedLeaves(s);
    } else {
      assert (s + [x])[..|s|] == s;
      SortedLeaves(s);
      InsertSorts(s, x);
      InsertMembers(s, x);
      var r := Insert(s, x);
      assert x in r;
      var i :| 0 <= i < |r| && r[i] == x;
      assert Lists(r, v);
    }
  }

  lemma PublishKeeps(c: Config, r: Record, html: string, explicit: int, title: string, now: string, o: Faults, k: nat)
    requires Inv(r)
    ensures Inv(PublishLocked(c, r, html, explicit, title, now, o, k).0)
  {
    var v := Resolve(r.blobs, explicit);
    var r1 := if o(k + 1).Acts() then r.(blobs := r.blobs[v := html]) else r;
    assert Inv(r1);
    if v in r1.blobs {
      UpsertKeeps(c, r1, title, v, now);
    }
  }

  lemma UpsertKeeps(c: Config, r: Record, title: string, v: int, now: string)
    requires Inv(r) && v in r.blobs
    ensures Inv(r.(meta := Some(Upserted(c.slug, r.meta, title, v, now))))
  {
    UpsertedAscends(c.slug, r.meta, title, v, now, r.blobs);
    var versions := Upserted(c.slug, r.meta, title, v, now).versions;
    assert forall i :: 0 <= i < |versions| ==> versions[i] in versions;
  }

  /** A removal that deletes the blobs but not the metadata row. */
  predicate RemovesHalf(r: Record, op: Op, o: Faults) {
    op.Remove? && o(0).Acts() && VersionsOf(r.meta) != [] && (o(0).Errs() || o(1).Errs() || !o(2).Acts())
  }

  /** Whatever store calls fail, every operation keeps the listed versions ascending and backed by blobs, with
      one exception: a removal that loses the blobs of listed versions and stops before the metadata. */
  lemma OpKeepsInv(c: Config, r: Record, op: Op, o: Faults)
    requires Inv(r)
    ensures Inv(Do(c, r, op, o).0) <==> !RemovesHalf(r, op, o)
  {
    match op
    case Publish(html, explicit, title, now) =>
      PublishKeeps(c, r, c.stamp(html), explicit, title, now, o, 0);
    case Promote(title, now) =>
      if r.draft.Some? { PublishKeeps(c, r, c.stamp(r.draft.value), 0, title, now, o, 1); }
    case Remove =>
      if RemovesHalf(r, op, o) { assert VersionsOf(r.meta)[0].n !in Do(c, r, op, o).0.blobs; }
    case _ =>
  }

  /** The blobs of before are all still there, unchanged. */
  predicate BlobsKept(before: map<int, string>, after: map<int, string>) {
    forall n :: n in before ==> n in after && after[n] == before[n]
  }

  /** Without an explicit version, the version of a publish exceeds every stored one, so no operation but
      Remove overwrites or deletes a published blob, and at most one is added, above all others. */
  lemma NothingOverwritten(c: Config, r: Record, op: Op, o: Faults)
    requires !op.Remove? && (op.Publish? ==> op.explicit <= 0)
    ensures BlobsKept(r.blobs, Do(c, r, op, o).0.blobs)
    ensures forall n, m :: n in Do(c, r, op, o).0.blobs && n !in r.blobs && m in r.blobs ==> m < n
    ensures Do(c, r, op, o).1.Some? ==>
      var v := Do(c, r, op, o).1.value; v !in r.blobs && v in Do(c, r, op, o).0.blobs
  {
  }

  /** The overwriting form: an explicit version that is stored already. */
  lemma ExplicitVersionOverwrites(c: Config, r: Record, html: string, v: int, title: string, now: string, o: Faults)
    requires Accepted(c, html) && v > 0 && o(1).Acts()
    ensures BlobsKept(r.blobs, Do(c, r, Publish(html, v, title, now), o).0.blobs)
       <==> (v in r.blobs ==> r.blobs[v] == c.stamp(html))
  {
    var after := Do(c, r, Publish(html, v, title, now), o).0.blobs;
    assert after == r.blobs[v := c.stamp(html)];
  }

  /** A publish that reports success stored the stamped HTML and lists its version, unless the store lied
      about the metadata write; its title and extra fields are the old ones where it brought none. */
  lemma PublishedIsListed(c: Config, r: Record, op: Op, o: Faults)
    requires Inv(r) && op.Publish? && Do(c, r, op, o).1.Some? && !o(4).Lost?
    ensures var r', v := Do(c, r, op, o).0, Do(c, r, op, o).1.value;
      (&& v in r'.blobs && (o(1).Acts() ==> r'.blobs[v] == c.stamp(op.html))
       && r'.meta.Some? && Lists(r'.meta.value.versions, v)
       && ExtraOf(r'.meta) == ExtraOf(r.meta) && r'.draft == r.draft)
  {
    hide Sorted, Titled;
    var v := Resolve(r.blobs, op.explicit);
    var r1 := if o(1).Acts() then r.(blobs := r.blobs[v := c.stamp(op.html)]) else r;
    UpsertedAscends(c.slug, r1.meta, op.title, v, op.now, r1.blobs);
  }

  // ---------------------------------------------------------------- the share code

  /** The stored hash, or the empty string. */
  function ShareHash(meta: Option<Meta>): string {
    if "share" in ExtraOf(meta) && ExtraOf(meta)["share"].Share? then ExtraOf(meta)["share"].codeHash else ""
  }

  /** The share code changes only by GenerateCode, RevokeCode and Remove, and then as they say. */
  lemma ShareCodeChanges(c: Config, r: Record, op: Op, o: Faults)
    ensures !op.GenerateCode? && !op.RevokeCode? && !op.Remove? ==>
      ShareHash(Do(c, r, op, o).0.meta) == ShareHash(r.meta)
    ensures op.GenerateCode? ==>
      ShareHash(Do(c, r, op, o).0.meta) ==
        if !o(0).Errs() && r.meta.Some? && o(1).Acts() then op.codeHash else ShareHash(r.meta)
    ensures op.RevokeCode? ==>
      ShareHash(Do(c, r, op, o).0.meta) == if !o(0).Errs() && o(1).Acts() then "" else ShareHash(r.meta)
    ensures op.Remove? ==>
      ShareHash(Do(c, r, op, o).0.meta) == if !o(0).Errs() && !o(1).Errs() && o(2).Acts() then "" else ShareHash(r.meta)
  {
    hide Sorted, Titled, Lists, MaxOf;
  }

  // ---------------------------------------------------------------- runs

  datatype Call = Call(op: Op, faults: Faults)

  ghost function Run(c: Config, r: Record, calls: seq<Call>): Record {
    if calls == [] then r
    else Do(c, Run(c, r, calls[..|calls| - 1]), calls[|calls| - 1].op, calls[|calls| - 1].faults).0
  }

  /** Every removal in the run completes: with the blobs goes the metadata row. */
  predicate RemovalsComplete(calls: seq<Call>) {
    forall i :: 0 <= i < |calls| && calls[i].op.Remove? && calls[i].faults(0).Acts() ==>
      !calls[i].faults(0).Errs() && !calls[i].faults(1).Errs() && calls[i].faults(2).Acts()
  }

  predicate NoExplicit(calls: seq<Call>) {
    forall i :: 0 <= i < |calls| && calls[i].op.Publish? ==> calls[i].op.explicit <= 0
  }

  predicate NoRemove(calls: seq<Call>) {
    forall i :: 0 <= i < |calls| ==> !calls[i].op.Remove?
  }

  predicate NoCodeChange(calls: seq<Call>) {
    forall i :: 0 <= i < |calls| ==> !calls[i].op.GenerateCode? && !calls[i].op.RevokeCode? && !calls[i].op.Remove?
  }

  /** In every run from an empty record, with a failure allowed at every store call of every operation but a
      half-done removal: listed versions ascend strictly and each has a blob. */
  lemma {:induction false} RunKeepsInv(c: Config, calls: seq<Call>)
    requires RemovalsComplete(calls)
    ensures Inv(Run(c, Record(map[], None, None), calls))
  {
    if calls != [] {
      var front, last := calls[..|calls| - 1], calls[|calls| - 1];
      RunKeepsInv(c, front);
      OpKeepsInv(c, Run(c, Record(map[], None, None), front), last.op, last.faults);
    }
  }

  /** A stored version keeps its bytes over every run without explicit versions and removals. */
  lemma {:induction false} RunKeepsBlobs(c: Config, r: Record, calls: seq<Call>)
    requires NoExplicit(calls) && NoRemove(calls)
    ensures BlobsKept(r.blobs, Run(c, r, calls).blobs)
    ensures forall n, m :: n in Run(c, r, calls).blobs && n !in r.blobs && m in r.blobs ==> m < n
  {
    if calls != [] {
      var front, last := calls[..|calls| - 1], calls[|calls| - 1];
      assert calls[|calls| - 1] == last && forall i :: 0 <= i < |front| ==> front[i] == calls[i];
      RunKeepsBlobs(c, r, front);
      NothingOverwritten(c, Run(c, r, front), last.op, last.faults);
    }
  }

  /** The share code survives every run of publishes, drafts and promotions. */
  lemma {:induction false} RunKeepsShareCode(c: Config, r: Record, calls: seq<Call>)
    requires NoCodeChange(calls)
    ensures ShareHash(Run(c, r, calls).meta) == ShareHash(r.meta)
  {
    if calls != [] {
      var front, last := calls[..|calls| - 1], calls[|calls| - 1];
      assert calls[|calls| - 1] == last && forall i :: 0 <= i < |front| ==> front[i] == calls[i];
      RunKeepsShareCode(c, r, front);
      ShareCodeChanges(c, Run(c, r, front), last.op, last.faults);
    }
  }

  /** Versions handed out grow: what a publish or promotion returns exceeds what any earlier one returned,
      whatever failed in between. */
  lemma ReturnedVersionsGrow(c: Config, r: Record, first: Call, between: seq<Call>, second: Call)
    requires NoExplicit([first] + between + [second]) && NoRemove([first] + between + [second])
    ensures var r1 := Do(c, r, first.op, first.faults);
            var r2 := Do(c, Run(c, r1.0, between), second.op, second.faults);
            r1.1.Some? && r2.1.Some? ==> r1.1.value < r2.1.value
  {
    var all := [first] + between + [second];
    assert all[0] == first && all[|all| - 1] == second;
    assert forall i :: 0 <= i < |between| ==> between[i] == all[i + 1];
    var r1 := Do(c, r, first.op, first.faults);
    NothingOverwritten(c, r, first.op, first.faults);
    RunKeepsBlobs(c, r1.0, between);
    NothingOverwritten(c, Run(c, r1.0, between), second.op, second.faults);
  }
}
