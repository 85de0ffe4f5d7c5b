/** The comment operations and the publish-time reconciliation, as functions on the comment list. */
module CommentOps {
  import opened CommentTypes
  import opened EventLog
  import opened CommentFold
  import opened LegacyMigration

  // ---------------------------------------------------------------- one comment

  function Events(c: Comment): Log {
    OrElse(c.events, [])
  }

  /** AppendEvent: stamp the event if it has no id, put it at the end. */
  function Append(c: Comment, e: CommentEvent, serial: nat): (r: (Comment, nat)) {
    (c.(events := Some(Events(c) + [Stamp(e, serial)])), if NeedsSerial(e) then serial + 1 else serial)
  }

  function AppendAll(c: Comment, s: Log, serial: nat): (r: (Comment, nat)) {
    if s == [] then (c, serial)
    else
      var (d, n) := AppendAll(c, s[..|s| - 1], serial);
      Append(d, s[|s| - 1], n)
  }

  /** The snapshot of a migrated comment. */
  function Snapshot(c: Comment, v: int): Option<CommentSnapshot> {
    SnapshotOf(c, Events(c), v)
  }

  /** Collapse the log, keeping it as it is when nothing is dropped. */
  function Compact(c: Comment, serial: nat): (r: (Comment, nat)) {
    if c.events.None? then (c, serial)
    else
      var s := Backfill(c.events.value, serial);
      (c.(events := Some(if |Dedup(s)| != |s| then Dedup(s) else s)), NextSerial(c.events.value, serial))
  }

  // ---------------------------------------------------------------- anchors

  function ToLower(s: string): string {
    seq(|s|, i requires 0 <= i < |s| => if 'A' <= s[i] <= 'Z' then s[i] - 'A' + 'a' else s[i])
  }

  function EqualFold(a: string, b: string): bool {
    ToLower(a) == ToLower(b)
  }

  predicate IsWordChar(c: char) {
    'a' <= c <= 'z' || 'A' <= c <= 'Z' || '0' <= c <= '9' || c == '_'
  }

  function WordRun(s: string): (n: nat)
    ensures n <= |s|
  {
    if s == [] || !IsWordChar(s[0]) then 0 else 1 + WordRun(s[1..])
  }

  /** The aid inside the first [data-odoc-aid="..."] of a selector, or "". */
  function SelectorAid(s: string): string
    decreases |s|
  {
    var open := "[data-odoc-aid=\"";
    if s == [] then ""
    else if open <= s && WordRun(s[|open|..]) > 0 && "\"]" <= s[|open| + WordRun(s[|open|..])..] then
      s[|open|..|open| + WordRun(s[|open|..])]
    else SelectorAid(s[1..])
  }

  function KnownAid(a: Anchor): string {
    if a.kind.ElementAnchor? && a.aid != "" then a.aid
    else if a.kind.ElementAnchor? && a.selector != "" then SelectorAid(a.selector)
    else ""
  }

  function WantedTag(a: Anchor): string {
    if a.fingerprint.Some? && a.fingerprint.value.tag != "" then a.fingerprint.value.tag
    else if a.labelText != "" then ToLower(a.labelText)
    else ""
  }

  function WantedHeading(a: Anchor): string {
    if a.fallback.Some? && a.fallback.value.nearestHeading.Some? then a.fallback.value.nearestHeading.value else ""
  }

  predicate TagFits(a: Anchor, x: StampedArtifact) {
    WantedTag(a) == "" || x.tag == WantedTag(a)
  }

  predicate HeadingFits(a: Anchor, x: StampedArtifact) {
    WantedHeading(a) == "" || (x.heading.Some? && EqualFold(x.heading.value, WantedHeading(a)))
  }

  function Fitting(a: Anchor, aids: seq<StampedArtifact>, withHeading: bool): (r: seq<StampedArtifact>)
    ensures forall x :: x in r ==> x in aids
  {
    if aids == [] then []
    else
      var x := aids[|aids| - 1];
      Fitting(a, aids[..|aids| - 1], withHeading)
      + (if TagFits(a, x) && (withHeading ==> HeadingFits(a, x)) then [x] else [])
  }

  /** The single confident target: the only artifact that fits tag and heading, or, when none fits
      both, the only one that fits the tag. */
  function RebindAid(a: Anchor, aids: seq<StampedArtifact>): string {
    var both := Fitting(a, aids, true);
    var tagOnly := Fitting(a, aids, false);
    if |both| == 1 then both[0].aid
    else if |both| == 0 && |tagOnly| == 1 then tagOnly[0].aid
    else ""
  }

  const NO_ANCHOR := Anchor(TextAnchor, "", "", "", "", "", "", "", None, None)

  function ReboundAnchor(a: Anchor, aid: string): Anchor {
    NO_ANCHOR.(kind := ElementAnchor, aid := aid, selector := "[data-odoc-aid=\"" + aid + "\"]",
               labelText := if a.labelText != "" then a.labelText
                            else if a.fingerprint.Some? && a.fingerprint.value.tag != "" then a.fingerprint.value.tag
                            else "element",
               fingerprint := a.fingerprint, fallback := a.fallback)
  }

  function LostFrom(a: Anchor): Anchor {
    NO_ANCHOR.(kind := LostAnchor, reason := "no_candidate", labelText := a.labelText,
               fingerprint := a.fingerprint, fallback := a.fallback)
  }

  /** The anchor to record for a drifted comment, or None to leave the log alone. */
  function NextAnchor(a: Anchor, aids: seq<StampedArtifact>): Option<Anchor> {
    var aid := RebindAid(a, aids);
    if aid != "" then Some(ReboundAnchor(a, aid))
    else if a.kind.LostAnchor? then None
    else Some(LostFrom(a))
  }

  predicate KnownIn(a: Anchor, aids: seq<StampedArtifact>) {
    KnownAid(a) != "" && exists x :: x in aids && x.aid == KnownAid(a)
  }

  /** The anchor a migrated comment needs at a version, or None. */
  function Correction(c: Comment, aids: seq<StampedArtifact>, version: int): Option<Anchor> {
    var snap := Snapshot(c, version);
    if snap.None? || snap.value.deleted || snap.value.anchor.None? then None
    else
      var a := snap.value.anchor.value;
      if !a.kind.ElementAnchor? && !a.kind.LostAnchor? then None
      else if KnownIn(a, aids) then None
      else NextAnchor(a, aids)
  }

  function ReconcileEvent(a: Anchor, version: int, at: string): CommentEvent {
    BlankEvent(AnchorChanged, version, at).(user := "reconcile", resetStatus := Some(false), anchor := Some(a))
  }

  function ReconcileOne(c: Comment, aids: seq<StampedArtifact>, version: int, at: string,
                        serial: nat): (r: (Comment, nat))
  {
    var a := Correction(c, aids, version);
    if a.Some? then Append(c, ReconcileEvent(a.value, version, at), serial) else (c, serial)
  }

  function ReconcileVersion(v: int): int {
    if v == 0 then 1 else v
  }

  // ---------------------------------------------------------------- the list

  /** The comment list of one slug, and the next one-shot serial number. */
  datatype Book = Book(list: seq<Comment>, serial: nat)

  /** A change made to every comment of a list. */
  datatype Pass =
    | MigratePass(clock: string)
    | ReconcilePass(aids: seq<StampedArtifact>, version: int, at: string)
    | CompactPass

  function Apply(pass: Pass, c: Comment, serial: nat): (r: (Comment, nat))
    ensures r.0.id == c.id && serial <= r.1
  {
    match pass
    case MigratePass(clock) => EnsureLog(c, clock, serial)
    case ReconcilePass(aids, version, at) => ReconcileOne(c, aids, version, at, serial)
    case CompactPass => Compact(c, serial)
  }

  /** Make a pass over the list, front to back. */
  function Each(b: Book, pass: Pass): (r: Book)
    ensures |r.list| == |b.list| && b.serial <= r.serial
    decreases |b.list|
  {
    if b.list == [] then b
    else
      var p := Each(Book(b.list[..|b.list| - 1], b.serial), pass);
      var (c, n) := Apply(pass, b.list[|b.list| - 1], p.serial);
      Book(p.list + [c], n)
  }

  function Migrate(b: Book, clock: string): Book {
    Each(b, MigratePass(clock))
  }

  function Reconcile(b: Book, aids: seq<StampedArtifact>, v: int, clock: string): Book {
    Each(Migrate(b, clock), ReconcilePass(aids, ReconcileVersion(v), clock))
  }

  function CompactAll(b: Book): Book {
    Each(b, CompactPass)
  }

  /** The first comment with this id, or |list|. */
  function FindById(list: seq<Comment>, id: string): (i: nat)
    ensures i <= |list|
    ensures i < |list| ==> list[i].id == id
    ensures forall j :: 0 <= j < i ==> list[j].id != id
  {
    if list == [] then 0
    else if list[0].id == id then 0
    else 1 + FindById(list[1..], id)
  }

  predicate AddsReply(e: CommentEvent, id: string) {
    e.kind.ReplyAdded? && e.reply.Some? && e.reply.value.id == id
  }

  predicate HasReply(s: Log, id: string) {
    exists i :: 0 <= i < |s| && AddsReply(s[i], id)
  }

  /** The first comment whose log adds a reply with this id, or |list|. */
  function FindByReply(list: seq<Comment>, id: string): (i: nat)
    ensures i <= |list|
    ensures i < |list| ==> HasReply(Events(list[i]), id)
    ensures forall j :: 0 <= j < i ==> !HasReply(Events(list[j]), id)
  {
    if list == [] then 0
    else if HasReply(Events(list[0]), id) then 0
    else 1 + FindByReply(list[1..], id)
  }

  datatype Host = NoHost | CommentHost(index: nat) | ReplyHost(index: nat)

  function FindHost(list: seq<Comment>, id: string): (h: Host)
    ensures !h.NoHost? ==> h.index < |list|
  {
    var i := FindById(list, id);
    if i < |list| then CommentHost(i)
    else
      var j := FindByReply(list, id);
      if j < |list| then ReplyHost(j) else NoHost
  }

  // ---------------------------------------------------------------- the operations

  datatype CommentOp =
    | CreateOp(id: string, author: Option<Author>, text: string, anchor: Option<Anchor>, version: int)
    | ReplyOp(parentId: string, replyId: string, author: Option<Author>, text: string, version: int)
    | PatchAnchorOp(id: string, anchor: Option<Anchor>, resetStatus: bool, actor: string, version: int)
    | ReactOp(id: string, emoji: string, user: string, version: int)
    | DeleteOp(id: string, actor: string, version: int)
    | RawEventsOp(id: string, events: seq<CommentEvent>)
    | WipeOp
    | PublishMergeOp(local: seq<Comment>, aids: seq<StampedArtifact>, version: int)
    | UnknownOp

  datatype OpBody =
    | ErrorBody(error: string)
    | OkBody
    | SnapshotBody(snapshot: Option<CommentSnapshot>)
    | ReplyBody(id: string, parentId: string, author: Option<Author>, text: string, created: string, version: int)
    | ReactionsBody(reactions: Reactions)
    | WipedBody(count: nat)
    | MergedBody(count: nat)

  datatype OpResult = OpResult(status: int, body: OpBody, wipe: bool)

  function Done(body: OpBody): OpResult {
    OpResult(200, body, false)
  }

  function NotFound(error: string): OpResult {
    OpResult(404, ErrorBody(error), false)
  }

  function AppendAt(b: Book, i: nat, e: CommentEvent): Book
    requires i < |b.list|
  {
    var (c, n) := Append(b.list[i], e, b.serial);
    Book(b.list[i := c], n)
  }

  function Create(b: Book, op: CommentOp, at: string): (r: (Book, OpResult))
    requires op.CreateOp?
  {
    var e := Stamp(BlankEvent(Created, op.version, at).(anchor := op.anchor, text := op.text), b.serial);
    var c := Comment(op.id, op.author, at, op.version, Some([e]), LegacyFields(None, None, None, "", None, [], map[]));
    (Book(b.list + [c], b.serial + 1), Done(SnapshotBody(Snapshot(c, op.version))))
  }

  function Reply(b: Book, op: CommentOp, at: string): (r: (Book, OpResult))
    requires op.ReplyOp?
  {
    var i := FindById(b.list, op.parentId);
    if i == |b.list| then (b, NotFound("parent_not_found"))
    else
      (AppendAt(b, i, BlankEvent(ReplyAdded, op.version, at).(
                        reply := Some(ReplySeed(op.replyId, op.author, op.text, "")))),
       Done(ReplyBody(op.replyId, op.parentId, op.author, op.text, at, op.version)))
  }

  function PatchAnchor(b: Book, op: CommentOp, at: string): (r: (Book, OpResult))
    requires op.PatchAnchorOp?
  {
    var i := FindById(b.list, op.id);
    if i == |b.list| then (b, NotFound("not_found"))
    else
      var b' := AppendAt(b, i, BlankEvent(AnchorChanged, op.version, at).(
                                 resetStatus := Some(op.resetStatus), anchor := op.anchor, user := op.actor));
      (b', Done(SnapshotBody(Snapshot(b'.list[i], op.version))))
  }

  function FindReply(replies: seq<ReplySnapshot>, id: string): (i: nat)
    ensures i <= |replies|
    ensures i < |replies| ==> replies[i].id == id
    ensures forall j :: 0 <= j < i ==> replies[j].id != id
  {
    if replies == [] then 0
    else if replies[0].id == id then 0
    else 1 + FindReply(replies[1..], id)
  }

  /** The reactions of the parent (replyId empty) or of a listed reply. */
  function ReactionsOf(snap: CommentSnapshot, replyId: string): Reactions {
    if replyId == "" then snap.reactions
    else
      var i := FindReply(snap.replies, replyId);
      if i < |snap.replies| then snap.replies[i].reactions else map[]
  }

  function ReactEvent(replyId: string, had: bool, op: CommentOp, at: string): CommentEvent
    requires op.ReactOp?
  {
    var kind := if replyId != "" then (if had then ReplyReactionRemoved else ReplyReactionAdded)
                else (if had then ReactionRemoved else ReactionAdded);
    BlankEvent(kind, op.version, at).(emoji := op.emoji, user := op.user, replyId := replyId)
  }

  function React(b: Book, op: CommentOp, at: string): (r: (Book, OpResult))
    requires op.ReactOp?
  {
    var h := FindHost(b.list, op.id);
    if h.NoHost? then (b, NotFound("not_found"))
    else
      var replyId := if h.ReplyHost? then op.id else "";
      var snap := Snapshot(b.list[h.index], op.version);
      if snap.None? then (b, NotFound("not_visible_at_version"))
      else
        var had := Reacted(ReactionsOf(snap.value, replyId), op.emoji, op.user);
        var b' := AppendAt(b, h.index, ReactEvent(replyId, had, op, at));
        var after := Snapshot(b'.list[h.index], op.version);
        (b', Done(ReactionsBody(if after.Some? then ReactionsOf(after.value, replyId) else map[])))
  }

  function Delete(b: Book, op: CommentOp, at: string): (r: (Book, OpResult))
    requires op.DeleteOp?
  {
    var h := FindHost(b.list, op.id);
    if h.NoHost? then (b, NotFound("not_found"))
    else
      var e := if h.ReplyHost? then BlankEvent(ReplyDeleted, op.version, at).(replyId := op.id, user := op.actor)
               else BlankEvent(Deleted, op.version, at).(user := op.actor);
      (AppendAt(b, h.index, e), Done(OkBody))
  }

  function RawEvents(b: Book, op: CommentOp): (r: (Book, OpResult))
    requires op.RawEventsOp?
  {
    var i := FindById(b.list, op.id);
    if i == |b.list| then (b, NotFound("not_found"))
    else
      var (c, n) := AppendAll(b.list[i], op.events, b.serial);
      (Book(b.list[i := c], n), Done(OkBody))
  }

  /** The stored list followed by the local comments whose id is new, each migrated. */
  function MergeLocal(b: Book, local: seq<Comment>, clock: string): (r: Book)
    ensures b.list <= r.list
    decreases |local|
  {
    if local == [] then b
    else
      var p := MergeLocal(b, local[..|local| - 1], clock);
      var lc := local[|local| - 1];
      if lc.id == "" || FindById(p.list, lc.id) < |p.list| then p
      else
        var (c, n) := EnsureLog(lc, clock, p.serial);
        Book(p.list + [c], n)
  }

  function PublishMerge(b: Book, op: CommentOp, clock: string): (r: (Book, OpResult))
    requires op.PublishMergeOp?
  {
    var m := MergeLocal(b, op.local, clock);
    var done := Done(MergedBody(|m.list| - |b.list|));
    if m.list == [] then (m, done)
    else (CompactAll(Reconcile(m, op.aids, op.version, clock)), done)
  }

  /** One operation: migrate the list, then apply. at is the operation's own timestamp, clock the
      time read while it runs. */
  function ApplyOp(b0: Book, op: CommentOp, at: string, clock: string): (r: (Book, OpResult)) {
    var b := Migrate(b0, clock);
    match op
    case CreateOp(_, _, _, _, _) => Create(b, op, at)
    case ReplyOp(_, _, _, _, _) => Reply(b, op, at)
    case PatchAnchorOp(_, _, _, _, _) => PatchAnchor(b, op, at)
    case ReactOp(_, _, _, _) => React(b, op, at)
    case DeleteOp(_, _, _) => Delete(b, op, at)
    case RawEventsOp(_, _) => RawEvents(b, op)
    case WipeOp => (b, OpResult(200, WipedBody(|b.list|), true))
    case PublishMergeOp(_, _, _) => PublishMerge(b, op, clock)
    case UnknownOp => (b, OpResult(400, ErrorBody("unknown_op"), false))
  }
}
