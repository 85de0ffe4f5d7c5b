/** The records of the comment event log: events, stored comments and folded snapshots. */
module CommentTypes {

  datatype Option<+T> = None | Some(value: T)

  /** Go's math.MaxInt; as a version it asks for the newest state. */
  const VERSION_LATEST := 0x7FFF_FFFF_FFFF_FFFF

  predicate IsFiniteVersion(v: int) {
    0 <= v < VERSION_LATEST
  }

  datatype Author = Author(login: string, name: string, kind: string)

  datatype Fingerprint = Fingerprint(tag: string)

  /** The ratio is kept as the number's text: nothing computes with it. */
  datatype Fallback = Fallback(nearestHeading: Option<string>, ratio: Option<string>)

  datatype Anchor = Anchor(
    kind: AnchorKind,
    text: string, contextBefore: string, contextAfter: string,
    aid: string, selector: string, labelText: string,
    reason: string,
    fingerprint: Option<Fingerprint>, fallback: Option<Fallback>)

  datatype AnchorKind = TextAnchor | ElementAnchor | LostAnchor | OtherAnchor(name: string)

  datatype EventKind =
    | Created | TextEdited | AnchorChanged
    | MarkedApplied | MarkedOpen | Deleted
    | ReactionAdded | ReactionRemoved
    | ReplyAdded | ReplyTextEdited | ReplyDeleted
    | ReplyReactionAdded | ReplyReactionRemoved
    | OtherKind(name: string)

  /** An event id, by the shape of its text. Parent reactions and state flags have ids computed
      from their payload ("reaction_added:" + emoji + ":" + by, "deleted:" + version), every other
      id is one-shot: its nonce is a serial number that is never issued twice. */
  datatype Eid =
    | NoEid
    | ReactionEid(added: bool, key: string)
    | StateEid(flag: EventKind, version: int)
    | OneShotEid(serial: nat)

  datatype ReplySeed = ReplySeed(id: string, author: Option<Author>, text: string, agentStatus: string)

  datatype CommentEvent = CommentEvent(
    kind: EventKind, eid: Eid, atVersion: int, at: string,
    anchor: Option<Anchor>, resetStatus: Option<bool>,
    text: string,
    appliedIn: Option<int>,
    user: string, agentStatus: string,
    emoji: string,
    reply: Option<ReplySeed>, replyId: string)

  /** An event with only its kind, version and time set, for the writers to fill in. */
  function BlankEvent(kind: EventKind, atVersion: int, at: string): CommentEvent {
    CommentEvent(kind, NoEid, atVersion, at, None, None, "", None, "", "", "", None, "")
  }

  type Reactions = map<string, seq<string>>

  /** A reply of a flat record; None stands for raw JSON that does not decode. */
  datatype LegacyReply = LegacyReply(
    id: string, author: Option<Author>, text: string, agentStatus: string,
    version: Option<int>, created: string, reactions: Reactions)

  datatype LegacyFields = LegacyFields(
    version: Option<int>, anchor: Option<Anchor>, text: Option<string>,
    status: string, appliedIn: Option<int>,
    replies: seq<Option<LegacyReply>>, reactions: Reactions)

  /** A stored comment. events is None for a flat record not yet migrated. */
  datatype Comment = Comment(
    id: string, author: Option<Author>, created: string, createdIn: int,
    events: Option<seq<CommentEvent>>, legacy: LegacyFields)

  datatype CommentStatus = Open | Applied

  datatype ReplySnapshot = ReplySnapshot(
    id: string, parentId: string, author: Option<Author>, text: string,
    agentStatus: Option<string>, created: string, reactions: Reactions, deleted: bool)

  datatype CommentSnapshot = CommentSnapshot(
    id: string, author: Option<Author>, created: string, createdIn: int, version: int,
    anchor: Option<Anchor>, text: string, status: CommentStatus, appliedIn: Option<int>,
    replies: seq<ReplySnapshot>, reactions: Reactions, deleted: bool)

  datatype StampedArtifact = StampedArtifact(aid: string, tag: string, head: string, heading: Option<string>)
}
