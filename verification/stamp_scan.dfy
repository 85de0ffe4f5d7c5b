/** The tag scanner of the artifact stamper: open tags with quoted attribute values, close tags, raw-text
    bodies, and the search for an element's close tag. Positions are relative to the string at hand. */
module StampScan {
  import opened CommentTypes
  import opened TextPrefix

  const NUL := '\0'

  predicate IsWord(c: char) {
    '0' <= c <= '9' || 'A' <= c <= 'Z' || 'a' <= c <= 'z' || c == '_'
  }

  /** The white space of a close tag. */
  predicate IsSpace(c: char) {
    c == ' ' || c == '\t' || c == '\n' || c == '\r' || c as int == 12
  }

  /** w stands at the start of s, in upper or lower case. */
  predicate FoldPrefix(s: string, w: string) {
    |w| <= |s| && forall k :: 0 <= k < |w| ==> Lower(s[k]) == Lower(w[k])
  }

  /** A word boundary between two neighbouring characters, or a character and an end. */
  predicate BoundaryAt(s: string, k: nat)
    requires k <= |s|
  {
    (k > 0 && IsWord(s[k - 1])) != (k < |s| && IsWord(s[k]))
  }

  /** "<tag" and a word boundary. */
  predicate OpenAt(s: string, tag: string) {
    |s| > |tag| && s[0] == '<' && FoldPrefix(s[1..], tag) && BoundaryAt(s, |tag| + 1)
  }

  function SpaceRun(s: string): (n: nat)
    ensures n <= |s|
  {
    if s == "" || !IsSpace(s[0]) then 0 else SpaceRun(s[1..]) + 1
  }

  /** The length of "</tag", white space and ">" at the start of s. */
  function CloseAt(s: string, tag: string): (r: Option<nat>)
    ensures r.Some? ==> |tag| + 3 <= r.value <= |s|
  {
    if |s| >= |tag| + 2 && s[0] == '<' && s[1] == '/' && FoldPrefix(s[2..], tag) then
      var k := |tag| + 2;
      var n := k + SpaceRun(s[k..]);
      if n < |s| && s[n] == '>' then Some(n + 1) else None
    else None
  }

  function Plus(r: Option<nat>, k: nat): Option<nat> {
    if r.None? then None else Some(r.value + k)
  }

  /** Past the first ">" outside quotes; quote is the one that is open, or NUL. */
  function ScanEnd(s: string, quote: char): (r: Option<nat>)
    ensures r.Some? ==> 0 < r.value <= |s| && s[r.value - 1] == '>'
  {
    if s == "" then None
    else if quote != NUL then Plus(ScanEnd(s[1..], if s[0] == quote then NUL else quote), 1)
    else if s[0] == '"' || s[0] == '\'' then Plus(ScanEnd(s[1..], s[0]), 1)
    else if s[0] == '>' then Some(1)
    else Plus(ScanEnd(s[1..], NUL), 1)
  }

  /** The length of the open tag that starts with the first character. */
  function OpenEnd(s: string): (r: Option<nat>)
    requires s != ""
    ensures r.Some? ==> 2 <= r.value <= |s| && s[r.value - 1] == '>'
  {
    Plus(ScanEnd(s[1..], NUL), 1)
  }

  const RAW_TAGS: seq<string> := ["script", "style", "textarea", "title"]

  /** The first of the tags that opens at the start of s. */
  function FirstOpen(s: string, tags: seq<string>): (r: Option<string>)
    ensures r.Some? ==> s != ""
  {
    if tags == [] then None else if OpenAt(s, tags[0]) then Some(tags[0]) else FirstOpen(s, tags[1..])
  }

  lemma {:induction false} FirstOpenHas(s: string, tags: seq<string>)
    ensures FirstOpen(s, tags).Some? ==> FirstOpen(s, tags).value in tags && OpenAt(s, FirstOpen(s, tags).value)
    ensures FirstOpen(s, tags).None? ==> forall t :: t in tags ==> !OpenAt(s, t)
  {
    if tags != [] {
      FirstOpenHas(s, tags[1..]);
    }
  }

  function RawAt(s: string): Option<string> {
    FirstOpen(s, RAW_TAGS)
  }

  /** Past the first close tag, or the end of the text. */
  function SkipRaw(s: string, tag: string): (n: nat)
    ensures n <= |s|
  {
    if s == "" then 0 else if CloseAt(s, tag).Some? then CloseAt(s, tag).value else SkipRaw(s[1..], tag) + 1
  }

  /** Something the search for a close tag consumes. */
  datatype Kind = Closes | Opens | Raw

  datatype Token = Token(kind: Kind, start: nat, end: nat)

  /** What stands at the start of s: a close tag, an open tag of the same name, a raw-text element, and how
      far it reaches; an unterminated raw-text open tag reaches nowhere. */
  function TokenAt(s: string, tag: string): (r: Option<Token>)
    requires tag != ""
    ensures r.Some? ==> s != "" && r.value.start == 0 && r.value.end <= |s| && (r.value.end > 0 || r.value.kind.Raw?)
  {
    if CloseAt(s, tag).Some? then Some(Token(Closes, 0, CloseAt(s, tag).value))
    else if OpenAt(s, tag) then Some(Token(Opens, 0, if OpenEnd(s).Some? then OpenEnd(s).value else |tag| + 1))
    else if RawAt(s).Some? then
      if OpenEnd(s).None? then Some(Token(Raw, 0, 0))
      else Some(Token(Raw, 0, OpenEnd(s).value + SkipRaw(s[OpenEnd(s).value..], RawAt(s).value)))
    else None
  }

  /** The end of the close tag that brings the depth to zero. */
  function Close(s: string, tag: string, depth: nat): (r: Option<nat>)
    requires tag != ""
    ensures r.Some? ==> |tag| + 3 <= r.value <= |s|
    decreases |s|
  {
    if s == "" then None
    else
      var t := TokenAt(s, tag);
      if t.None? then Plus(Close(s[1..], tag, depth), 1)
      else if t.value.kind.Closes? && depth <= 1 then Some(t.value.end)
      else if t.value.end == 0 then None
      else Plus(Close(s[t.value.end..], tag, Next(depth, t.value.kind)), t.value.end)
  }

  function Next(depth: nat, kind: Kind): nat {
    match kind
    case Closes => if depth > 0 then depth - 1 else 0
    case Opens => depth + 1
    case Raw => depth
  }

  // ---------------------------------------------------------------- what the search finds

  function Shifted(ts: seq<Token>, k: nat): seq<Token> {
    if ts == [] then [] else [Token(ts[0].kind, ts[0].start + k, ts[0].end + k)] + Shifted(ts[1..], k)
  }

  /** The tokens of a text from left to right, each read where the one before ended. */
  function Tokens(s: string, tag: string): seq<Token>
    requires tag != ""
    decreases |s|
  {
    if s == "" then []
    else
      var t := TokenAt(s, tag);
      if t.None? then Shifted(Tokens(s[1..], tag), 1)
      else if t.value.end == 0 then []
      else [t.value] + Shifted(Tokens(s[t.value.end..], tag), t.value.end)
  }

  /** Opens minus closes among the first k tokens. */
  function Balance(ts: seq<Token>, k: nat): int
    requires k <= |ts|
  {
    if k == 0 then 0
    else Balance(ts, k - 1) + if ts[k - 1].kind.Opens? then 1 else if ts[k - 1].kind.Closes? then -1 else 0
  }

  lemma {:induction false} ShiftedAt(ts: seq<Token>, d: nat, k: nat)
    ensures |Shifted(ts, d)| == |ts|
    ensures k < |ts| ==> Shifted(ts, d)[k] == Token(ts[k].kind, ts[k].start + d, ts[k].end + d)
    ensures k <= |ts| ==> Balance(Shifted(ts, d), k) == Balance(ts, k)
    decreases |ts|, k
  {
    if ts != [] {
      ShiftedAt(ts[1..], d, if k > 0 then k - 1 else 0);
      if 0 < k <= |ts| {
        ShiftedAt(ts, d, k - 1);
        if k > 1 { ShiftedAt(ts[1..], d, k - 1 - 1); }
      }
    }
  }

  lemma {:induction false} BalanceCons(t: Token, ts: seq<Token>, k: nat)
    requires k <= |ts|
    ensures Balance([t] + ts, k + 1) == Balance([t], 1) + Balance(ts, k)
  {
    if k == 0 {
      assert ([t] + ts)[0] == t;
    } else {
      BalanceCons(t, ts, k - 1);
      assert ([t] + ts)[k] == ts[k - 1];
    }
  }

  /** Token k is the close tag at which the depth first reaches zero. */
  predicate FirstZero(ts: seq<Token>, depth: nat, k: nat) {
    && k < |ts| && ts[k].kind.Closes? && depth + Balance(ts, k + 1) == 0
    && forall j: nat :: j <= k ==> depth + Balance(ts, j) >= 1
  }

  predicate NeverZero(ts: seq<Token>, depth: nat) {
    forall j: nat :: j <= |ts| ==> depth + Balance(ts, j) >= 1
  }

  /** A search result as a statement about the tokens. */
  predicate Finds(ts: seq<Token>, depth: nat, r: Option<nat>) {
    match r
    case Some(n) => exists k: nat :: k < |ts| && FirstZero(ts, depth, k) && ts[k].end == n
    case None => NeverZero(ts, depth)
  }

  lemma FindsShifted(ts: seq<Token>, d: nat, depth: nat, r: Option<nat>)
    requires Finds(ts, depth, r)
    ensures Finds(Shifted(ts, d), depth, Plus(r, d))
  {
    var us := Shifted(ts, d);
    ShiftedAt(ts, d, 0);
    forall j: nat | j <= |ts| ensures Balance(us, j) == Balance(ts, j) {
      ShiftedAt(ts, d, j);
    }
    if r.Some? {
      var k: nat :| k < |ts| && FirstZero(ts, depth, k) && ts[k].end == r.value;
      ShiftedAt(ts, d, k);
      assert Balance(us, k + 1) == Balance(ts, k + 1);
      assert FirstZero(us, depth, k);
    }
  }

  /** One token more in front. */
  lemma FindsCons(t: Token, ts: seq<Token>, depth: nat, r: Option<nat>)
    requires depth >= 1 && (t.kind.Closes? ==> depth > 1) && Finds(ts, Next(depth, t.kind), r)
    ensures Finds([t] + ts, depth, r)
  {
    var us, d := [t] + ts, Next(depth, t.kind);
    assert us[0] == t && |us| == |ts| + 1;
    assert depth + Balance([t], 1) == d by {
      assert Balance([t], 0) == 0;
    }
    forall j: nat | 0 < j <= |us| ensures depth + Balance(us, j) == d + Balance(ts, j - 1) {
      BalanceCons(t, ts, j - 1);
    }
    if r.Some? {
      var k: nat :| k < |ts| && FirstZero(ts, d, k) && ts[k].end == r.value;
      assert us[k + 1] == ts[k];
      assert depth + Balance(us, k + 2) == d + Balance(ts, k + 1);
      forall j: nat | j <= k + 1 ensures depth + Balance(us, j) >= 1 {
        if j > 0 { assert d + Balance(ts, j - 1) >= 1; }
      }
      assert FirstZero(us, depth, k + 1);
    } else {
      forall j: nat | j <= |us| ensures depth + Balance(us, j) >= 1 {
        if j > 0 { assert d + Balance(ts, j - 1) >= 1; }
      }
    }
  }

  /** The search finds the end of the first close tag at which opens minus closes, counted over the tokens it
      reads, reaches zero, and nothing exactly when they never do. */
  lemma {:induction false} CloseIsFirstZero(s: string, tag: string, depth: nat)
    requires tag != "" && depth >= 1
    ensures Finds(Tokens(s, tag), depth, Close(s, tag, depth))
    decreases |s|
  {
    if s == "" {
      assert NeverZero([], depth);
    } else {
      var t := TokenAt(s, tag);
      if t.None? {
        CloseIsFirstZero(s[1..], tag, depth);
        FindsShifted(Tokens(s[1..], tag), 1, depth, Close(s[1..], tag, depth));
      } else if t.value.end > 0 {
        var rest, n := s[t.value.end..], t.value.end;
        var ts := [t.value] + Shifted(Tokens(rest, tag), n);
        assert ts[0] == t.value;
        if t.value.kind.Closes? && depth == 1 {
          assert Balance(ts, 0) == 0 && Balance(ts, 1) == -1;
          assert FirstZero(ts, depth, 0);
        } else {
          var d := Next(depth, t.value.kind);
          CloseIsFirstZero(rest, tag, d);
          FindsShifted(Tokens(rest, tag), n, d, Close(rest, tag, d));
          FindsCons(t.value, Shifted(Tokens(rest, tag), n), depth, Plus(Close(rest, tag, d), n));
        }
      } else {
        assert NeverZero([], depth);
      }
    }
  }

  /** A token is what stands in the text at its place. */
  predicate Stands(s: string, tag: string, t: Token)
    requires tag != ""
  {
    t.start < t.end <= |s| && TokenAt(s[t.start..], tag) == Some(Token(t.kind, 0, t.end - t.start))
  }

  lemma StandsShifted(s: string, tag: string, n: nat, t: Token, u: Token)
    requires tag != "" && n <= |s| && Stands(s[n..], tag, t)
    requires u.kind == t.kind && u.start == t.start + n && u.end == t.end + n
    ensures Stands(s, tag, u)
  {
    assert s[n..][t.start..] == s[u.start..];
  }

  lemma HeadStands(s: string, tag: string)
    requires tag != "" && TokenAt(s, tag).Some? && TokenAt(s, tag).value.end > 0
    ensures Stands(s, tag, TokenAt(s, tag).value)
  {
    assert s[0..] == s;
  }

  lemma LaterStands(s: string, tag: string, n: nat, rest: seq<Token>, k: nat)
    requires tag != "" && n <= |s| && k < |rest| && Stands(s[n..], tag, rest[k])
    ensures |Shifted(rest, n)| == |rest| && Stands(s, tag, Shifted(rest, n)[k])
  {
    ShiftedAt(rest, n, k);
    var u := Shifted(rest, n)[k];
    StandsShifted(s, tag, n, rest[k], u);
  }

  lemma TokensStep(s: string, tag: string)
    requires tag != "" && s != ""
    ensures var t := TokenAt(s, tag);
      Tokens(s, tag) == if t.None? then Shifted(Tokens(s[1..], tag), 1)
                        else if t.value.end == 0 then []
                        else [t.value] + Shifted(Tokens(s[t.value.end..], tag), t.value.end)
  {
  }

  lemma NoTokens(tag: string)
    requires tag != ""
    ensures Tokens("", tag) == []
  {
  }

  lemma ShiftedLength(ts: seq<Token>, d: nat)
    ensures |Shifted(ts, d)| == |ts|
  {
    ShiftedAt(ts, d, 0);
  }

  /** Every token stands in the text. */
  lemma {:induction false} TokensStand(s: string, tag: string, k: nat)
    requires tag != "" && k < |Tokens(s, tag)|
    ensures Stands(s, tag, Tokens(s, tag)[k])
    decreases |s|
  {
    hide TokenAt, Stands, Shifted, Tokens;
    NoTokens(tag);
    TokensStep(s, tag);
    var t := TokenAt(s, tag);
    var n := if t.None? then 1 else t.value.end;
    if n > 0 {
      var rest := Tokens(s[n..], tag);
      ShiftedLength(rest, n);
      if t.Some? && k == 0 {
        HeadStands(s, tag);
      } else {
        var j := if t.None? then k else k - 1;
        TokensStand(s[n..], tag, j);
        LaterStands(s, tag, n, rest, j);
      }
    }
  }

  /** Tokens come in order and do not overlap. */
  lemma {:induction false} TokensOrdered(s: string, tag: string, k: nat)
    requires tag != "" && k + 1 < |Tokens(s, tag)|
    ensures Tokens(s, tag)[k].end <= Tokens(s, tag)[k + 1].start
    decreases |s|
  {
    hide TokenAt, Shifted, Tokens;
    NoTokens(tag);
    TokensStep(s, tag);
    var t := TokenAt(s, tag);
    var n := if t.None? then 1 else t.value.end;
    if n > 0 {
      var rest := Tokens(s[n..], tag);
      ShiftedLength(rest, n);
      if t.None? {
        ShiftedAt(rest, n, k);
        ShiftedAt(rest, n, k + 1);
        TokensOrdered(s[n..], tag, k);
      } else {
        ShiftedAt(rest, n, k);
        if k > 0 {
          ShiftedAt(rest, n, k - 1);
          TokensOrdered(s[n..], tag, k - 1);
        }
      }
    }
  }
}
