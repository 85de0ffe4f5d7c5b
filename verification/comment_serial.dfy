/** Comment operations under the per-slug lock: what is stored in the end is what the operations make of the
    list one after the other. */
module CommentSerial {
  import opened CommentTypes
  import opened CommentOps
  import opened CommentRuns
  import M = KeyedMutex

  /** How a list of comments is kept as text. */
  datatype Codec = Codec(write: seq<Comment> -> string, read: string -> seq<Comment>)

  /** What the codec writes for this list it reads back. */
  predicate RoundTrips(codec: Codec, list: seq<Comment>) {
    codec.read(codec.write(list)) == list
  }

  /** A slug without a record has no comments. */
  function ListOf(codec: Codec, v: Option<string>): seq<Comment> {
    if v.None? then [] else codec.read(v.value)
  }

  /** A request, with the event serial it starts from. */
  datatype Request = Request(call: Call, serial: nat)

  /** applyOp: read, apply, and write the list back, or drop the record, when the operation succeeds. */
  function EffectOf(codec: Codec, v: Option<string>, q: Request): M.Effect {
    var (b, r) := ApplyOp(Book(ListOf(codec, v), q.serial), q.call.op, q.call.at, q.call.clock);
    if r.status != 200 then M.Keep else if r.wipe then M.Drop else M.Put(codec.write(b.list))
  }

  /** The list after a request is served. */
  ghost function Served(list: seq<Comment>, q: Request): seq<Comment> {
    Serve(Book(list, q.serial), q.call).list
  }

  /** Every thread runs the request that calls has for it. */
  ghost predicate RunsCalls(codec: Codec, s: M.State, calls: map<nat, Request>) {
    forall t :: t in s.threads ==> t in calls && forall v :: s.threads[t].job.apply(v) == EffectOf(codec, v, calls[t])
  }

  /** The requests of a slug whose writes completed, served one after the other in the order of grants. */
  ghost function InOrder(s: M.State, calls: map<nat, Request>, list: seq<Comment>, slug: string,
                         grants: seq<nat>): seq<Comment>
  {
    if grants == [] then list
    else
      var front, t := InOrder(s, calls, list, slug, grants[..|grants| - 1]), grants[|grants| - 1];
      if M.On(s, t, slug) && t in s.written && t in calls then Served(front, calls[t]) else front
  }

  /** Every list that comes to be stored under the slug is read back as it was written. */
  ghost predicate StoredRoundTrip(codec: Codec, s: M.State, calls: map<nat, Request>, list: seq<Comment>, slug: string,
                                  grants: seq<nat>)
  {
    grants == [] ||
    (RoundTrips(codec, InOrder(s, calls, list, slug, grants))
     && StoredRoundTrip(codec, s, calls, list, slug, grants[..|grants| - 1]))
  }

  lemma EffectIsServing(codec: Codec, v: Option<string>, q: Request)
    requires RoundTrips(codec, Served(ListOf(codec, v), q))
    ensures ListOf(codec, M.After(v, EffectOf(codec, v, q))) == Served(ListOf(codec, v), q)
  {
    hide ApplyOp;
  }

  lemma {:induction false} AppliedInOrder(codec: Codec, s: M.State, calls: map<nat, Request>, start: Option<string>,
                                          slug: string, grants: seq<nat>)
    requires RunsCalls(codec, s, calls) && StoredRoundTrip(codec, s, calls, ListOf(codec, start), slug, grants)
    ensures ListOf(codec, M.Applied(s, start, slug, grants)) == InOrder(s, calls, ListOf(codec, start), slug, grants)
  {
    hide RoundTrips, ListOf, EffectOf, Served;
    if grants != [] {
      var front, t := grants[..|grants| - 1], grants[|grants| - 1];
      AppliedInOrder(codec, s, calls, start, slug, front);
      if M.On(s, t, slug) && t in s.written {
        EffectIsServing(codec, M.Applied(s, start, slug, front), calls[t]);
      }
    }
  }

  lemma StepKeepsJobs(s: M.State, t: nat, a: M.Action)
    requires M.Enabled(s, t, a)
    ensures M.SameJobs(s, M.Do(s, t, a))
  {
  }

  lemma {:induction false} JobsStay(s: M.State, run: M.Schedule)
    requires M.Runs(s, run)
    ensures M.SameJobs(s, M.End(s, run))
    decreases |run|
  {
    hide M.Do, M.Enabled;
    if run != [] {
      JobsStay(s, run[..|run| - 1]);
      StepKeepsJobs(M.End(s, run[..|run| - 1]), run[|run| - 1].0, run[|run| - 1].1);
    }
  }

  /** No update of a comment list is lost: in every state that threads serving comment requests can reach, under
      any schedule and with any reads and writes failing, the stored list of a slug is the first one with the
      requests that wrote served one after the other, in the order in which they got the slug's lock. */
  lemma CommentsSerialised(codec: Codec, s: M.State, run: M.Schedule, calls: map<nat, Request>, slug: string)
    requires RunsCalls(codec, s, calls) && M.Initial(s) && M.Runs(s, run)
    requires var e := M.End(s, run);
      StoredRoundTrip(codec, e, calls, ListOf(codec, M.Lookup(s.store, slug)), slug, e.grants)
    ensures var e := M.End(s, run);
      ListOf(codec, M.Lookup(e.store, slug)) ==
          InOrder(e, calls, ListOf(codec, M.Lookup(s.store, slug)), slug, e.grants)
  {
    hide RoundTrips, ListOf, EffectOf, Served, StoredRoundTrip;
    JobsStay(s, run);
    M.NoLostUpdate(s, run, slug);
    AppliedInOrder(codec, M.End(s, run), calls, M.Lookup(s.store, slug), slug, M.End(s, run).grants);
  }

  // ---------------------------------------------------------------- such codecs exist

  /** A list by its place among lists, as so many strokes; what is not among them is written as their number. */
  function PlaceOf(lists: seq<seq<Comment>>, list: seq<Comment>): nat {
    if lists == [] || lists[0] == list then 0 else 1 + PlaceOf(lists[1..], list)
  }

  function Strokes(n: nat): string {
    if n == 0 then "" else Strokes(n - 1) + "|"
  }

  lemma {:induction false} StrokesLength(n: nat)
    ensures |Strokes(n)| == n
  {
    if n > 0 {
      StrokesLength(n - 1);
    }
  }

  lemma {:induction false} PlaceFound(lists: seq<seq<Comment>>, list: seq<Comment>)
    requires list in lists
    ensures PlaceOf(lists, list) < |lists| && lists[PlaceOf(lists, list)] == list
  {
    if lists[0] != list {
      PlaceFound(lists[1..], list);
    }
  }

  function Listed(lists: seq<seq<Comment>>, text: string): seq<Comment> {
    if |text| < |lists| then lists[|text|] else []
  }

  /** For any lists there is a codec that reads each of them back. */
  lemma CodecExists(lists: seq<seq<Comment>>) returns (codec: Codec)
    ensures forall list :: list in lists ==> RoundTrips(codec, list)
  {
    codec := Codec(list => Strokes(PlaceOf(lists, list)), text => Listed(lists, text));
    forall list | list in lists ensures RoundTrips(codec, list) {
      PlaceFound(lists, list);
      StrokesLength(PlaceOf(lists, list));
    }
  }

  /** The lists stored on the way. */
  ghost function Stages(s: M.State, calls: map<nat, Request>, list: seq<Comment>, slug: string,
                        grants: seq<nat>): seq<seq<Comment>>
  {
    if grants == [] then []
    else Stages(s, calls, list, slug, grants[..|grants| - 1]) + [InOrder(s, calls, list, slug, grants)]
  }

  lemma {:induction false} StagesReadBack(codec: Codec, s: M.State, calls: map<nat, Request>, list: seq<Comment>,
                                          slug: string, grants: seq<nat>)
    requires forall l :: l in Stages(s, calls, list, slug, grants) ==> RoundTrips(codec, l)
    ensures StoredRoundTrip(codec, s, calls, list, slug, grants)
  {
    hide RoundTrips, InOrder;
    if grants != [] {
      var front := Stages(s, calls, list, slug, grants[..|grants| - 1]);
      assert Stages(s, calls, list, slug, grants) == front + [InOrder(s, calls, list, slug, grants)];
      StagesReadBack(codec, s, calls, list, slug, grants[..|grants| - 1]);
    }
  }

  /** So what CommentsSerialised asks of the codec can be met for any requests and any order of grants. */
  lemma StoredRoundTripMet(s: M.State, calls: map<nat, Request>, list: seq<Comment>, slug: string, grants: seq<nat>)
    returns (codec: Codec)
    ensures StoredRoundTrip(codec, s, calls, list, slug, grants)
  {
    codec := CodecExists(Stages(s, calls, list, slug, grants));
    StagesReadBack(codec, s, calls, list, slug, grants);
  }
}
