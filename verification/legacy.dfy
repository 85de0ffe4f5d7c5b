/** Migrating flat records into event logs. */
module LegacyMigration {
  import opened CommentTypes
  import opened EventLog

  // ---------------------------------------------------------------- sorted keys

  predicate TextLe(a: string, b: string) {
    if a == [] then true
    else if b == [] then false
    else if a[0] != b[0] then a[0] < b[0]
    else TextLe(a[1..], b[1..])
  }

  lemma {:induction false} TextLeTotal(a: string, b: string)
    ensures TextLe(a, b) || TextLe(b, a)
  {
    if a != [] && b != [] && a[0] == b[0] {
      TextLeTotal(a[1..], b[1..]);
    }
  }

  lemma {:induction false} TextLeAntisymmetric(a: string, b: string)
    requires TextLe(a, b) && TextLe(b, a)
    ensures a == b
  {
    if a != [] && b != [] {
      TextLeAntisymmetric(a[1..], b[1..]);
      assert a == [a[0]] + a[1..] && b == [b[0]] + b[1..];
    }
  }

  lemma {:induction false} TextLeTransitive(a: string, b: string, c: string)
    requires TextLe(a, b) && TextLe(b, c)
    ensures TextLe(a, c)
  {
    if a != [] && b != [] && c != [] && a[0] == b[0] == c[0] {
      TextLeTransitive(a[1..], b[1..], c[1..]);
    }
  }

  predicate IsLeast(keys: set<string>, k: string) {
    k in keys && forall x :: x in keys ==> TextLe(k, x)
  }

  lemma {:induction false} LeastExists(keys: set<string>)
    requires keys != {}
    ensures exists k :: IsLeast(keys, k)
  {
    var x :| x in keys;
    var rest := keys - {x};
    TextLeTotal(x, x);
    if rest == {} {
      assert keys == {x};
      assert IsLeast(keys, x);
    } else {
      LeastExists(rest);
      var k :| IsLeast(rest, k);
      TextLeTotal(x, k);
      if TextLe(x, k) {
        forall y | y in keys ensures TextLe(x, y) {
          if y != x {
            TextLeTransitive(x, k, y);
          }
        }
        assert IsLeast(keys, x);
      } else {
        assert IsLeast(keys, k);
      }
    }
  }

  lemma LeastUnique(keys: set<string>)
    ensures forall a, b :: IsLeast(keys, a) && IsLeast(keys, b) ==> a == b
  {
    forall a, b | IsLeast(keys, a) && IsLeast(keys, b) ensures a == b {
      TextLeAntisymmetric(a, b);
    }
  }

  /** The keys in ascending order. */
  function SortedKeys(keys: set<string>): (r: seq<string>)
    ensures forall k :: k in r <==> k in keys
    ensures |r| == |keys|
  {
    if keys == {} then []
    else
      LeastExists(keys);
      LeastUnique(keys);
      var k :| k in keys && IsLeast(keys, k);
      [k] + SortedKeys(keys - {k})
  }

  lemma {:induction false} SortedKeysAscend(keys: set<string>)
    ensures forall i, j :: 0 <= i < j < |SortedKeys(keys)| ==>
      TextLe(SortedKeys(keys)[i], SortedKeys(keys)[j]) && SortedKeys(keys)[i] != SortedKeys(keys)[j]
  {
    if keys != {} {
      var r := SortedKeys(keys);
      SortedKeysAscend(keys - {r[0]});
      forall i, j | 0 <= i < j < |r| ensures TextLe(r[i], r[j]) && r[i] != r[j] {
        var t := SortedKeys(keys - {r[0]});
        assert r == [r[0]] + t;
        assert r[j] == t[j - 1] && t[j - 1] in keys - {r[0]};
      }
    }
  }

  // ---------------------------------------------------------------- the events of a flat record

  function OrElse<T>(o: Option<T>, default: T): T {
    if o.Some? then o.value else default
  }

  function ReactionSeed(kind: EventKind, replyId: string, emoji: string, user: string, v: int, at: string): CommentEvent
  {
    BlankEvent(kind, v, at).(emoji := emoji, user := user, replyId := replyId)
  }

  function UserEvents(kind: EventKind, replyId: string, emoji: string, users: seq<string>, v: int, at: string): Log {
    seq(|users|, i requires 0 <= i < |users| => ReactionSeed(kind, replyId, emoji, users[i], v, at))
  }

  function KeyEvents(kind: EventKind, replyId: string, r: Reactions, keys: seq<string>, v: int, at: string): Log
    requires forall k :: k in keys ==> k in r
  {
    if keys == [] then []
    else
      var k := keys[|keys| - 1];
      KeyEvents(kind, replyId, r, keys[..|keys| - 1], v, at) + UserEvents(kind, replyId, k, r[k], v, at)
  }

  function ReactionEvents(kind: EventKind, replyId: string, r: Reactions, v: int, at: string): Log {
    KeyEvents(kind, replyId, r, SortedKeys(r.Keys), v, at)
  }

  function ReplyVersion(r: LegacyReply, v: int): int {
    OrElse(r.version, v)
  }

  function ReplyTime(r: LegacyReply, at: string): string {
    if r.created == "" then at else r.created
  }

  function ReplyAddedSeed(r: LegacyReply, v: int, at: string): CommentEvent {
    BlankEvent(ReplyAdded, ReplyVersion(r, v), ReplyTime(r, at)).(
      reply := Some(ReplySeed(r.id, r.author, r.text, r.agentStatus)))
  }

  /** One reply: its creation, then its reactions, all at the reply's own version. */
  function ReplyBlock(r: LegacyReply, v: int, at: string): Log {
    [ReplyAddedSeed(r, v, at)]
    + ReactionEvents(ReplyReactionAdded, r.id, r.reactions, ReplyVersion(r, v), ReplyTime(r, at))
  }

  /** The replies that decode and carry an id. */
  function GoodReplies(raw: seq<Option<LegacyReply>>): seq<LegacyReply> {
    if raw == [] then []
    else
      var last := raw[|raw| - 1];
      GoodReplies(raw[..|raw| - 1]) + (if last.Some? && last.value.id != "" then [last.value] else [])
  }

  function ReplyBlocks(replies: seq<LegacyReply>, v: int, at: string): Log {
    if replies == [] then []
    else ReplyBlocks(replies[..|replies| - 1], v, at) + ReplyBlock(replies[|replies| - 1], v, at)
  }

  function FlatVersion(c: Comment): int {
    OrElse(c.legacy.version, 1)
  }

  function FlatTime(c: Comment, clock: string): string {
    if c.created == "" then clock else c.created
  }

  function CreatedSeed(c: Comment, clock: string): CommentEvent {
    BlankEvent(Created, FlatVersion(c), FlatTime(c, clock)).(
      anchor := c.legacy.anchor, text := OrElse(c.legacy.text, ""))
  }

  function AppliedSeeds(c: Comment, clock: string): Log {
    if c.legacy.status != "applied" then []
    else
      var v := OrElse(c.legacy.appliedIn, FlatVersion(c));
      [BlankEvent(MarkedApplied, v, FlatTime(c, clock)).(
         appliedIn := Some(v), user := "odoc-agent", agentStatus := "applied")]
  }

  function LegacyEvents(c: Comment, clock: string): (s: Log)
    ensures s != [] && s[0] == CreatedSeed(c, clock)
  {
    [CreatedSeed(c, clock)] + AppliedSeeds(c, clock)
    + ReactionEvents(ReactionAdded, "", c.legacy.reactions, FlatVersion(c), FlatTime(c, clock))
    + ReplyBlocks(GoodReplies(c.legacy.replies), FlatVersion(c), FlatTime(c, clock))
  }

  /** A comment after EnsureEventLog, with the serial number it leaves behind. */
  function EnsureLog(c: Comment, clock: string, serial: nat): (r: (Comment, nat))
    ensures r.0.id == c.id && serial <= r.1
    ensures r.0.events.Some? ==> Stamped(r.0.events.value)
    ensures r.0.events.None? <==> c.events.None? && c.id == ""
  {
    if c.events.Some? then
      (c.(events := Some(Backfill(c.events.value, serial))), NextSerial(c.events.value, serial))
    else if c.id == "" then (c, serial)
    else
      var s := LegacyEvents(c, clock);
      (c.(events := Some(Backfill(s, serial)), createdIn := s[0].atVersion, created := FlatTime(c, clock)),
       NextSerial(s, serial))
  }

  /** Migration, and filling in ids, happen once. */
  lemma EnsureLogIdempotent(c: Comment, clock: string, serial: nat, clock': string, serial': nat)
    ensures var d := EnsureLog(c, clock, serial).0; EnsureLog(d, clock', serial') == (d, serial')
  {
    var d := EnsureLog(c, clock, serial).0;
    if d.events.Some? {
      BackfillStamped(d.events.value, serial');
    }
  }
}
