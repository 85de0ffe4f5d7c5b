/** A document with identity attributes, some followed by a slash, woven in before some of its ">" characters,
    and why the scanner reads it as it reads the document without them. */
module StampWeave {
  import opened CommentTypes
  import opened StampScan
  import opened TextPrefix
  import opened Stamper

  /** A character and what was put in before it. */
  datatype Cell = Cell(pre: string, c: char)

  function Plain(cs: seq<Cell>): string {
    if cs == [] then "" else [cs[0].c] + Plain(cs[1..])
  }

  function Woven(cs: seq<Cell>): string {
    if cs == [] then "" else cs[0].pre + ([cs[0].c] + Woven(cs[1..]))
  }

  predicate PlainAid(aid: string) {
    forall k :: 0 <= k < |aid| ==> IsWord(aid[k])
  }

  ghost predicate IsStamp(w: string) {
    exists aid :: PlainAid(aid) && w == Stamp(aid)
  }

  /** What a stamping puts before ">": an identity attribute, and a slash where the tag closes itself. */
  function Inset(aid: string, slash: bool): string {
    if slash then Stamp(aid) + "/" else Stamp(aid)
  }

  ghost predicate IsInset(w: string) {
    exists aid, slash :: PlainAid(aid) && w == Inset(aid, slash)
  }

  /** Only insets are woven in, and only before ">". */
  ghost predicate WellPlaced(cs: seq<Cell>) {
    forall k :: 0 <= k < |cs| && cs[k].pre != "" ==> cs[k].c == '>' && IsInset(cs[k].pre)
  }

  /** No inset has a slash. */
  ghost predicate NoSlashes(cs: seq<Cell>) {
    forall k :: 0 <= k < |cs| && cs[k].pre != "" ==> IsStamp(cs[k].pre)
  }

  // ---------------------------------------------------------------- parts

  lemma {:induction false} PlainAt(cs: seq<Cell>)
    ensures |Plain(cs)| == |cs| && forall k :: 0 <= k < |cs| ==> Plain(cs)[k] == cs[k].c
  {
    if cs != [] {
      PlainAt(cs[1..]);
    }
  }

  lemma PlainPart(cs: seq<Cell>, n: nat)
    requires n <= |cs|
    ensures |Plain(cs)| == |cs| && Plain(cs[n..]) == Plain(cs)[n..] && Plain(cs[..n]) == Plain(cs)[..n]
  {
    PlainAt(cs);
    PlainAt(cs[n..]);
    PlainAt(cs[..n]);
  }

  lemma {:induction false} WovenSplit(cs: seq<Cell>, n: nat)
    requires n <= |cs|
    ensures Woven(cs) == Woven(cs[..n]) + Woven(cs[n..])
  {
    if n == 0 {
      assert cs[..0] == [] && cs[0..] == cs;
    } else {
      WovenSplit(cs[1..], n - 1);
      assert cs[..n][1..] == cs[1..][..n - 1] && cs[1..][n - 1..] == cs[n..];
      WovenJoin(cs[0], Woven(cs[..n][1..]), Woven(cs[n..]));
    }
  }

  lemma WovenJoin(x: Cell, a: string, b: string)
    ensures x.pre + ([x.c] + (a + b)) == (x.pre + ([x.c] + a)) + b
  {
  }

  /** Where cell n begins in the woven text. */
  function Off(cs: seq<Cell>, n: nat): nat
    requires n <= |cs|
  {
    |Woven(cs[..n])|
  }

  function OffOf(cs: seq<Cell>, r: Option<nat>): Option<nat>
    requires r.Some? ==> r.value <= |cs|
  {
    if r.None? then None else Some(Off(cs, r.value))
  }

  lemma OffSuffix(cs: seq<Cell>, n: nat)
    requires n <= |cs|
    ensures Off(cs, n) <= |Woven(cs)| && Woven(cs)[Off(cs, n)..] == Woven(cs[n..])
    ensures Woven(cs)[..Off(cs, n)] == Woven(cs[..n])
  {
    WovenSplit(cs, n);
  }

  /** Offsets add up. */
  lemma OffAdds(cs: seq<Cell>, n: nat, m: nat)
    requires n + m <= |cs|
    ensures Off(cs, n + m) == Off(cs, n) + Off(cs[n..], m)
  {
    WovenSplit(cs[..n + m], n);
    assert cs[..n + m][..n] == cs[..n] && cs[..n + m][n..] == cs[n..][..m];
  }

  lemma OffStep(cs: seq<Cell>)
    requires cs != []
    ensures Off(cs, 1) == |cs[0].pre| + 1 && Off(cs, 0) == 0
  {
    assert cs[..1] == [cs[0]] && cs[..1][1..] == [] && cs[..0] == [];
    assert Woven([cs[0]]) == cs[0].pre + ([cs[0].c] + "");
  }

  /** The leading cells before which nothing was put. */
  function Lead(cs: seq<Cell>): (n: nat)
    ensures n <= |cs|
  {
    if cs == [] || cs[0].pre != "" then 0 else 1 + Lead(cs[1..])
  }

  lemma {:induction false} LeadAgrees(cs: seq<Cell>)
    ensures Lead(cs) <= |Woven(cs)| && |Plain(cs)| == |cs|
    ensures forall k :: 0 <= k < Lead(cs) ==> Woven(cs)[k] == Plain(cs)[k]
    ensures Lead(cs) == |cs| ==> |Woven(cs)| == |cs|
  {
    PlainAt(cs);
    if cs != [] && cs[0].pre == "" {
      LeadAgrees(cs[1..]);
      assert Woven(cs) == [cs[0].c] + Woven(cs[1..]);
    }
  }

  /** What ends the lead: the identity attribute in the woven text, ">" in the plain one. */
  lemma {:induction false} LeadEnds(cs: seq<Cell>)
    requires WellPlaced(cs) && Lead(cs) < |cs|
    ensures Lead(cs) + 1 < |Woven(cs)| && Woven(cs)[Lead(cs)] == ' ' && Woven(cs)[Lead(cs) + 1] == 'd'
    ensures |Plain(cs)| == |cs| && Plain(cs)[Lead(cs)] == '>'
  {
    hide IsInset, Lead, Woven, Plain;
    PlainAt(cs);
    LeadStep(cs);
    if cs[0].pre == "" {
      WellPlacedRest(cs, 1);
      hide WellPlaced;
      LeadEnds(cs[1..]);
    } else {
      InsetHead(cs[0].pre);
      StartsWithPre(cs);
    }
  }

  lemma LeadStep(cs: seq<Cell>)
    requires cs != []
    ensures cs[0].pre != "" ==> Lead(cs) == 0
    ensures cs[0].pre == "" ==> Lead(cs) == 1 + Lead(cs[1..]) && Woven(cs) == [cs[0].c] + Woven(cs[1..])
    ensures Plain(cs) == [cs[0].c] + Plain(cs[1..])
  {
  }

  lemma StartsWithPre(cs: seq<Cell>)
    requires cs != []
    ensures |cs[0].pre| < |Woven(cs)| && forall k :: 0 <= k < |cs[0].pre| ==> Woven(cs)[k] == cs[0].pre[k]
  {
  }

  lemma InsetHead(w: string)
    requires IsInset(w)
    ensures |w| > 16 && w[0] == ' ' && w[1] == 'd'
  {
  }

  lemma WellPlacedRest(cs: seq<Cell>, n: nat)
    requires WellPlaced(cs) && n <= |cs|
    ensures WellPlaced(cs[n..]) && WellPlaced(cs[..n])
  {
    hide IsInset;
  }

  lemma NoSlashesRest(cs: seq<Cell>, n: nat)
    requires NoSlashes(cs) && n <= |cs|
    ensures NoSlashes(cs[n..]) && NoSlashes(cs[..n])
  {
    hide IsStamp;
  }

  lemma {:induction false} LeadPlain(cs: seq<Cell>, n: nat)
    requires n <= |cs| && forall k :: 0 <= k < n ==> cs[k].pre == ""
    ensures |Plain(cs)| == |cs| && Lead(cs) >= n && Woven(cs[..n]) == Plain(cs)[..n]
  {
    PlainAt(cs);
    if n > 0 {
      assert cs[..n][1..] == cs[1..][..n - 1];
      LeadPlain(cs[1..], n - 1);
    }
  }

  // ---------------------------------------------------------------- matching at the head

  /** Characters that occur neither in what is put in nor where. */
  predicate Solid(w: string) {
    ' ' !in w && '>' !in w
  }

  lemma FoldAgrees(cs: seq<Cell>, w: string, n: nat)
    requires WellPlaced(cs) && Solid(w) && n <= Lead(cs)
    ensures n <= |Woven(cs)| && n <= |Plain(cs)|
    ensures FoldPrefix(Woven(cs)[n..], w) <==> FoldPrefix(Plain(cs)[n..], w)
    ensures FoldPrefix(Plain(cs)[n..], w) ==> n + |w| <= Lead(cs)
  {
    LeadAgrees(cs);
    if Lead(cs) < |cs| { LeadEnds(cs); }
    var k := Lead(cs) - n;
    if k < |w| {
      assert w[k] != ' ' && w[k] != '>';
      assert k + n < |Plain(cs)| ==> Plain(cs)[n..][k] == '>';
      assert k + n < |cs| ==> Woven(cs)[n..][k] == ' ';
    }
  }

  lemma OpenAgrees(cs: seq<Cell>, tag: string)
    requires WellPlaced(cs) && cs != [] && cs[0].pre == "" && Solid(tag)
    ensures OpenAt(Woven(cs), tag) <==> OpenAt(Plain(cs), tag)
  {
    hide FoldPrefix, WellPlaced, Solid, Woven, Plain;
    FoldAgrees(cs, tag, 1);
    LeadAgrees(cs);
    if Lead(cs) < |cs| { LeadEnds(cs); }
  }

  lemma {:induction false} FirstOpenAgrees(cs: seq<Cell>, tags: seq<string>)
    requires WellPlaced(cs) && cs != [] && cs[0].pre == "" && forall t :: t in tags ==> Solid(t)
    ensures FirstOpen(Woven(cs), tags) == FirstOpen(Plain(cs), tags)
  {
    hide OpenAt, WellPlaced, Solid;
    if tags != [] {
      OpenAgrees(cs, tags[0]);
      FirstOpenAgrees(cs, tags[1..]);
    }
  }

  // ---------------------------------------------------------------- quotes: an identity attribute changes no state

  lemma ScanCons(c: char, t: string, quote: char)
    ensures ScanEnd([c] + t, quote) ==
      if quote != NUL then Plus(ScanEnd(t, if c == quote then NUL else quote), 1)
      else if c == '"' || c == '\'' then Plus(ScanEnd(t, c), 1)
      else if c == '>' then Some(1)
      else Plus(ScanEnd(t, NUL), 1)
  {
    assert ([c] + t)[1..] == t;
  }

  /** Text without quotes and ">" is passed over. */
  lemma {:induction false} ScanText(w: string, t: string, quote: char)
    requires forall k :: 0 <= k < |w| ==> w[k] != '"' && w[k] != '\'' && w[k] != '>'
    requires quote == NUL || quote == '"' || quote == '\''
    ensures ScanEnd(w + t, quote) == Plus(ScanEnd(t, quote), |w|)
  {
    hide ScanEnd;
    if w == "" {
      assert w + t == t;
    } else {
      assert w + t == [w[0]] + (w[1..] + t);
      ScanCons(w[0], w[1..] + t, quote);
      ScanText(w[1..], t, quote);
    }
  }

  lemma AidIsText(aid: string)
    requires PlainAid(aid)
    ensures forall k :: 0 <= k < |aid| ==>
      aid[k] != '"' && aid[k] != '\'' && aid[k] != '>' && aid[k] != '<' && aid[k] != ' '
  {
    assert forall k :: 0 <= k < |aid| ==> IsWord(aid[k]);
  }

  /** Two double quotes with text between them leave the scanner as it was. */
  lemma ScanQuoted(aid: string, t: string, quote: char)
    requires PlainAid(aid) && (quote == NUL || quote == '"' || quote == '\'')
    ensures ScanEnd("\"" + (aid + ("\"" + t)), quote) == Plus(ScanEnd(t, quote), |aid| + 2)
  {
    hide ScanEnd, PlainAid;
    var within := if quote == NUL then '"' else if quote == '"' then NUL else quote;
    ScanCons('"', aid + ("\"" + t), quote);
    AidIsText(aid);
    ScanText(aid, "\"" + t, within);
    ScanCons('"', t, within);
  }

  lemma ScanStamp(aid: string, t: string, quote: char)
    requires PlainAid(aid) && (quote == NUL || quote == '"' || quote == '\'')
    ensures ScanEnd(Stamp(aid) + t, quote) == Plus(ScanEnd(t, quote), |Stamp(aid)|)
  {
    hide ScanEnd, PlainAid;
    var head := " data-odoc-aid=";
    assert Stamp(aid) + t == head + ("\"" + (aid + ("\"" + t)));
    ScanText(head, "\"" + (aid + ("\"" + t)), quote);
    ScanQuoted(aid, t, quote);
  }

  lemma ScanInset(w: string, t: string, quote: char)
    requires IsInset(w) && (quote == NUL || quote == '"' || quote == '\'')
    ensures ScanEnd(w + t, quote) == Plus(ScanEnd(t, quote), |w|)
  {
    hide ScanEnd, PlainAid, Stamp;
    var aid, slash :| PlainAid(aid) && w == Inset(aid, slash);
    if slash {
      assert w + t == Stamp(aid) + ("/" + t);
      ScanStamp(aid, "/" + t, quote);
      ScanText("/", t, quote);
    } else {
      ScanStamp(aid, t, quote);
    }
  }

  lemma OffNext(cs: seq<Cell>, r: Option<nat>)
    requires cs != [] && (r.Some? ==> r.value < |cs|)
    ensures OffOf(cs, Plus(r, 1)) == Plus(OffOf(cs[1..], r), |cs[0].pre| + 1)
  {
    OffStep(cs);
    if r.Some? {
      OffAdds(cs, 1, r.value);
    }
  }

  /** The state of the scanner after a character. */
  function After(c: char, quote: char): char {
    if quote != NUL then (if c == quote then NUL else quote) else if c == '"' || c == '\'' then c else NUL
  }

  predicate Ends(c: char, quote: char) {
    quote == NUL && c == '>'
  }

  lemma ScanHead(c: char, t: string, quote: char)
    ensures ScanEnd([c] + t, quote) == if Ends(c, quote) then Some(1) else Plus(ScanEnd(t, After(c, quote)), 1)
  {
    ScanCons(c, t, quote);
  }

  lemma ScanNothing(quote: char)
    ensures ScanEnd("", quote) == None
  {
  }

  lemma WovenHead(cs: seq<Cell>, quote: char)
    requires WellPlaced(cs) && cs != [] && (quote == NUL || quote == '"' || quote == '\'')
    ensures ScanEnd(Woven(cs), quote) == Plus(ScanEnd([cs[0].c] + Woven(cs[1..]), quote), |cs[0].pre|)
  {
    hide ScanEnd, IsInset;
    if cs[0].pre != "" {
      ScanInset(cs[0].pre, [cs[0].c] + Woven(cs[1..]), quote);
    } else {
      assert "" + ([cs[0].c] + Woven(cs[1..])) == [cs[0].c] + Woven(cs[1..]);
    }
  }

  /** The end of a tag is found at the same character, whatever was woven in. */
  lemma {:induction false} ScanWoven(cs: seq<Cell>, quote: char)
    requires WellPlaced(cs) && (quote == NUL || quote == '"' || quote == '\'')
    ensures |Plain(cs)| == |cs|
    ensures ScanEnd(Woven(cs), quote) == OffOf(cs, ScanEnd(Plain(cs), quote))
  {
    hide ScanEnd, Off, OffOf, WellPlaced;
    PlainAt(cs);
    if cs == [] {
      ScanNothing(quote);
      OffNone(cs);
    } else {
      var c, rest := cs[0].c, cs[1..];
      WellPlacedRest(cs, 1);
      PlainAt(rest);
      WovenHead(cs, quote);
      ScanHead(c, Woven(rest), quote);
      ScanHead(c, Plain(rest), quote);
      if Ends(c, quote) {
        OffOne(cs);
      } else {
        ScanWoven(rest, After(c, quote));
        OffNext(cs, ScanEnd(Plain(rest), After(c, quote)));
      }
    }
  }

  lemma OffNone(cs: seq<Cell>)
    ensures OffOf(cs, None) == None
  {
  }

  lemma OffOne(cs: seq<Cell>)
    requires cs != []
    ensures OffOf(cs, Some(1)) == Some(|cs[0].pre| + 1)
  {
    OffStep(cs);
  }

  lemma WovenCons(cs: seq<Cell>)
    requires cs != [] && cs[0].pre == ""
    ensures Woven(cs) == [cs[0].c] + Woven(cs[1..]) && Woven(cs)[1..] == Woven(cs[1..])
    ensures Plain(cs) == [cs[0].c] + Plain(cs[1..]) && Plain(cs)[1..] == Plain(cs[1..])
  {
  }

  /** The same for the whole open tag. */
  lemma OpenEndWoven(cs: seq<Cell>)
    requires WellPlaced(cs) && cs != [] && cs[0].pre == ""
    ensures |Plain(cs)| == |cs| && Woven(cs) != ""
    ensures OpenEnd(Woven(cs)) == OffOf(cs, OpenEnd(Plain(cs)))
  {
    hide ScanEnd, WellPlaced, Off, OffOf;
    PlainAt(cs);
    PlainAt(cs[1..]);
    WovenCons(cs);
    WellPlacedRest(cs, 1);
    ScanWoven(cs[1..], NUL);
    OffNext(cs, ScanEnd(Plain(cs[1..]), NUL));
  }

  // ---------------------------------------------------------------- close tags

  /** No identity attribute stands before the ">" of a close tag. */
  predicate CleanClose(cs: seq<Cell>, tag: string) {
    CloseAt(Plain(cs), tag).Some? ==>
        CloseAt(Plain(cs), tag).value <= |cs| && cs[CloseAt(Plain(cs), tag).value - 1].pre == ""
  }

  /** A name that a search for a close tag can ask for. */
  predicate TagName(tag: string) {
    tag != "" && forall k :: 0 <= k < |tag| ==> IsName(tag[k])
  }

  lemma NameSolid(tag: string)
    requires TagName(tag)
    ensures Solid(tag) && tag != ""
  {
  }

  ghost predicate CleanCloses(cs: seq<Cell>) {
    forall k: nat, tag :: k < |cs| && TagName(tag) ==> CleanClose(cs[k..], tag)
  }

  lemma {:induction false} SpaceRunIs(s: string, k: nat)
    ensures k < SpaceRun(s) ==> IsSpace(s[k])
    ensures SpaceRun(s) < |s| ==> !IsSpace(s[SpaceRun(s)])
  {
    if s != "" && IsSpace(s[0]) {
      SpaceRunIs(s[1..], if k > 0 then k - 1 else 0);
    }
  }

  /** Close tags depend on what they span only. */
  lemma {:induction false} SpaceRunAgrees(s: string, t: string, n: nat)
    requires n <= |s| && n <= |t| && s[..n] == t[..n]
    ensures SpaceRun(s) < n ==> SpaceRun(t) == SpaceRun(s)
    decreases n
  {
    if n > 0 {
      assert s[0] == s[..n][0] == t[..n][0] == t[0];
      assert s[1..][..n - 1] == s[..n][1..] && t[1..][..n - 1] == t[..n][1..];
      SpaceRunAgrees(s[1..], t[1..], n - 1);
    }
  }

  lemma CloseAgreesWithin(s: string, t: string, tag: string, n: nat)
    requires CloseAt(s, tag) == Some(n) && n <= |t| && s[..n] == t[..n]
    ensures CloseAt(t, tag) == Some(n)
  {
    var k := |tag| + 2;
    assert forall i :: 0 <= i < n ==> s[i] == s[..n][i] == t[..n][i] == t[i];
    assert forall i :: 0 <= i < |tag| ==> s[2..][i] == t[2..][i];
    assert s[k..][..n - k] == s[..n][k..] && t[k..][..n - k] == t[..n][k..];
    SpaceRunAgrees(s[k..], t[k..], n - k);
  }

  /** Nothing but name characters, white space, "/" and the final ">" follow the "<" of a close tag. */
  lemma CloseChars(s: string, tag: string, i: nat)
    requires CloseAt(s, tag).Some? && Solid(tag) && 0 < i < CloseAt(s, tag).value - 1
    ensures s[i] != '>' && (s[i] == ' ' ==> i >= |tag| + 2 && (IsSpace(s[i + 1]) || s[i + 1] == '>'))
  {
    var k := |tag| + 2;
    if 2 <= i < k {
      assert Lower(s[2..][i - 2]) == Lower(tag[i - 2]) && tag[i - 2] in tag;
    } else if i >= k {
      SpaceRunIs(s[k..], i - k);
      if i + 1 < CloseAt(s, tag).value - 1 { SpaceRunIs(s[k..], i + 1 - k); }
    }
  }

  /** A close tag is read alike in both texts, and nothing is woven into it. */
  lemma CloseAtWoven(cs: seq<Cell>, tag: string)
    requires WellPlaced(cs) && cs != [] && cs[0].pre == "" && Solid(tag) && CleanClose(cs, tag)
    ensures CloseAt(Woven(cs), tag) == CloseAt(Plain(cs), tag)
    ensures CloseAt(Plain(cs), tag).Some? ==> CloseAt(Plain(cs), tag).value <= Lead(cs)
  {
    LeadAgrees(cs);
    PlainAt(cs);
    var p, w := Plain(cs), Woven(cs);
    if CloseAt(p, tag).Some? {
      CloseFits(cs, tag);
      var n := CloseAt(p, tag).value;
      assert p[..n] == w[..n];
      CloseAgreesWithin(p, w, tag, n);
    } else if CloseAt(w, tag).Some? {
      WovenCloseFits(cs, tag);
      var n := CloseAt(w, tag).value;
      assert p[..n] == w[..n];
      CloseAgreesWithin(w, p, tag, n);
      assert false;
    }
  }

  lemma CloseFits(cs: seq<Cell>, tag: string)
    requires WellPlaced(cs) && cs != [] && cs[0].pre == "" && Solid(tag) && CleanClose(cs, tag)
    requires CloseAt(Plain(cs), tag).Some?
    ensures CloseAt(Plain(cs), tag).value <= Lead(cs)
  {
    var n := CloseAt(Plain(cs), tag).value;
    PlainAt(cs);
    forall i: nat | i < n ensures cs[i].pre == "" {
      if 0 < i < n - 1 { CloseChars(Plain(cs), tag, i); }
    }
    LeadPlain(cs, n);
  }

  lemma CloseEndsAngle(s: string, tag: string)
    ensures CloseAt(s, tag).Some? ==> s[0] == '<' && s[CloseAt(s, tag).value - 1] == '>'
  {
  }

  lemma WovenCloseFits(cs: seq<Cell>, tag: string)
    requires WellPlaced(cs) && cs != [] && cs[0].pre == "" && Solid(tag)
    requires CloseAt(Woven(cs), tag).Some?
    ensures CloseAt(Woven(cs), tag).value <= Lead(cs)
  {
    hide CloseAt, Woven, Plain, WellPlaced, Solid, FoldPrefix;
    var n := CloseAt(Woven(cs), tag).value;
    LeadAgrees(cs);
    if Lead(cs) < |cs| && Lead(cs) < n {
      LeadEnds(cs);
      CloseEndsAngle(Woven(cs), tag);
      CloseChars(Woven(cs), tag, Lead(cs));
      assert false;
    }
  }

  lemma {:induction false} OffLead(cs: seq<Cell>, n: nat)
    requires n <= Lead(cs)
    ensures Off(cs, n) == n
  {
    if n == 0 {
      assert cs[..0] == [];
    } else {
      OffLead(cs[1..], n - 1);
      OffStep(cs);
      OffAdds(cs, 1, n - 1);
    }
  }

  lemma OffPlus(cs: seq<Cell>, n: nat, r: Option<nat>)
    requires n <= |cs| && (r.Some? ==> n + r.value <= |cs|)
    ensures OffOf(cs, Plus(r, n)) == Plus(OffOf(cs[n..], r), Off(cs, n))
  {
    if r.Some? {
      OffAdds(cs, n, r.value);
    }
  }

  lemma CleanRest(cs: seq<Cell>, n: nat)
    requires CleanCloses(cs) && n <= |cs|
    ensures CleanCloses(cs[n..])
  {
    hide CleanClose, TagName;
    forall k: nat, tag | k < |cs[n..]| && TagName(tag) ensures CleanClose(cs[n..][k..], tag) {
      assert cs[n..][k..] == cs[n + k..];
    }
  }

  lemma CleanHead(cs: seq<Cell>, tag: string)
    requires CleanCloses(cs) && cs != [] && TagName(tag)
    ensures CleanClose(cs, tag)
  {
    hide CleanClose, TagName;
    assert cs[0..] == cs;
  }

  lemma InsetNoTag(w: string)
    requires IsInset(w)
    ensures '<' !in w
  {
    var aid, slash :| PlainAid(aid) && w == Inset(aid, slash);
    AidIsText(aid);
  }

  lemma CloseNeedsTag(s: string, tag: string)
    requires s == "" || s[0] != '<'
    ensures CloseAt(s, tag).None? && (tag != "" ==> TokenAt(s, tag).None?)
  {
    FirstOpenHas(s, RAW_TAGS);
  }

  lemma {:induction false} SkipText(w: string, t: string, tag: string)
    requires '<' !in w
    ensures SkipRaw(w + t, tag) == |w| + SkipRaw(t, tag)
  {
    hide CloseAt;
    if w == "" {
      assert w + t == t;
    } else {
      SkipText(w[1..], t, tag);
      assert (w + t)[1..] == w[1..] + t;
      CloseNeedsTag(w + t, tag);
    }
  }

  lemma SkipHead(c: char, t: string, tag: string)
    requires CloseAt([c] + t, tag).None?
    ensures SkipRaw([c] + t, tag) == 1 + SkipRaw(t, tag)
  {
    hide CloseAt;
    assert ([c] + t)[1..] == t;
  }

  lemma SkipClosed(s: string, tag: string)
    requires s != "" && CloseAt(s, tag).Some?
    ensures SkipRaw(s, tag) == CloseAt(s, tag).value
  {
    hide CloseAt;
  }

  /** A raw-text body is skipped to the same place. */
  lemma {:induction false} SkipWoven(cs: seq<Cell>, tag: string)
    requires WellPlaced(cs) && CleanCloses(cs) && TagName(tag)
    ensures |Plain(cs)| == |cs| && SkipRaw(Woven(cs), tag) == Off(cs, SkipRaw(Plain(cs), tag))
  {
    hide CloseAt, WellPlaced, CleanCloses, CleanClose, Off, SkipRaw, IsInset, TagName, Solid;
    NameSolid(tag);
    PlainAt(cs);
    if cs == [] {
      SkipOfNothing(cs, tag);
    } else {
      var c, rest := cs[0].c, cs[1..];
      WellPlacedRest(cs, 1);
      CleanRest(cs, 1);
      PlainAt(rest);
      if cs[0].pre == "" {
        CleanHead(cs, tag);
        CloseAtWoven(cs, tag);
        WovenCons(cs);
        if CloseAt(Plain(cs), tag).Some? {
          SkipClosed(Plain(cs), tag);
          SkipClosed(Woven(cs), tag);
          OffLead(cs, CloseAt(Plain(cs), tag).value);
          return;
        }
        SkipHead(c, Woven(rest), tag);
      } else {
        SkipStamp(cs, tag);
      }
      SkipHead(c, Plain(rest), tag);
      SkipWoven(rest, tag);
      OffStep(cs);
      OffAdds(cs, 1, SkipRaw(Plain(rest), tag));
    }
  }

  lemma SkipOfNothing(cs: seq<Cell>, tag: string)
    requires cs == []
    ensures SkipRaw(Woven(cs), tag) == Off(cs, 0) && SkipRaw(Plain(cs), tag) == 0
  {
  }

  lemma SkipStamp(cs: seq<Cell>, tag: string)
    requires WellPlaced(cs) && cs != [] && cs[0].pre != ""
    ensures SkipRaw(Woven(cs), tag) == |cs[0].pre| + 1 + SkipRaw(Woven(cs[1..]), tag)
    ensures CloseAt(Plain(cs), tag).None? && Plain(cs) == [cs[0].c] + Plain(cs[1..])
  {
    hide IsInset, CloseAt, SkipRaw;
    InsetNoTag(cs[0].pre);
    SkipText(cs[0].pre, [cs[0].c] + Woven(cs[1..]), tag);
    CloseNeedsTag([cs[0].c] + Woven(cs[1..]), tag);
    SkipHead(cs[0].c, Woven(cs[1..]), tag);
    CloseNeedsTag(Plain(cs), tag);
  }

  // ---------------------------------------------------------------- the search for a close tag

  function MapToken(cs: seq<Cell>, t: Option<Token>): Option<Token>
    requires t.Some? ==> t.value.end <= |cs|
  {
    if t.None? then None else Some(Token(t.value.kind, 0, Off(cs, t.value.end)))
  }

  lemma RawNames()
    ensures forall t :: t in RAW_TAGS ==> TagName(t) && Solid(t)
  {
  }

  lemma OpensLead(cs: seq<Cell>, tag: string)
    requires WellPlaced(cs) && cs != [] && cs[0].pre == "" && Solid(tag) && OpenAt(Plain(cs), tag)
    ensures |tag| + 1 <= Lead(cs)
  {
    FoldAgrees(cs, tag, 1);
  }

  /** What starts at a character is read alike in both texts. */
  lemma TokenWoven(cs: seq<Cell>, tag: string)
    requires WellPlaced(cs) && CleanCloses(cs) && cs != [] && cs[0].pre == "" && TagName(tag)
    ensures |Plain(cs)| == |cs| && TokenAt(Woven(cs), tag) == MapToken(cs, TokenAt(Plain(cs), tag))
  {
    hide CloseAt, OpenAt, OpenEnd, SkipRaw, FirstOpen, WellPlaced, CleanCloses, CleanClose, Off, Woven, Plain, Solid,
         TagName;
    NameSolid(tag);
    PlainAt(cs);
    CleanHead(cs, tag);
    CloseAtWoven(cs, tag);
    OpenAgrees(cs, tag);
    OpenEndWoven(cs);
    RawNames();
    FirstOpenAgrees(cs, RAW_TAGS);
    if CloseAt(Plain(cs), tag).Some? {
      OffLead(cs, CloseAt(Plain(cs), tag).value);
    } else if OpenAt(Plain(cs), tag) {
      OpensLead(cs, tag);
      OffLead(cs, |tag| + 1);
    } else if RawAt(Plain(cs)).Some? {
      RawWoven(cs, RawAt(Plain(cs)).value);
      OffLead(cs, 0);
    }
  }

  lemma RawWoven(cs: seq<Cell>, raw: string)
    requires WellPlaced(cs) && CleanCloses(cs) && cs != [] && cs[0].pre == ""
    requires FirstOpen(Plain(cs), RAW_TAGS) == Some(raw)
    requires |Plain(cs)| == |cs|
    ensures OpenEnd(Plain(cs)).Some? ==>
      var n := OpenEnd(Plain(cs)).value;
      Off(cs, n) <= |Woven(cs)| && n + SkipRaw(Plain(cs)[n..], raw) <= |cs|
      && Off(cs, n) + SkipRaw(Woven(cs)[Off(cs, n)..], raw) == Off(cs, n + SkipRaw(Plain(cs)[n..], raw))
  {
    hide OpenEnd, SkipRaw, WellPlaced, CleanCloses, Off, Woven, Plain, FirstOpen, TagName;
    if OpenEnd(Plain(cs)).Some? {
      var n := OpenEnd(Plain(cs)).value;
      FirstOpenHas(Plain(cs), RAW_TAGS);
      RawNames();
      WellPlacedRest(cs, n);
      CleanRest(cs, n);
      PlainPart(cs, n);
      OffSuffix(cs, n);
      SkipWoven(cs[n..], raw);
      OffAdds(cs, n, SkipRaw(Plain(cs)[n..], raw));
    }
  }

  lemma CloseStep(s: string, tag: string, depth: nat)
    requires tag != "" && s != ""
    ensures var t := TokenAt(s, tag);
      Close(s, tag, depth) ==
        if t.None? then Plus(Close(s[1..], tag, depth), 1)
        else if t.value.kind.Closes? && depth <= 1 then Some(t.value.end)
        else if t.value.end == 0 then None
        else Plus(Close(s[t.value.end..], tag, Next(depth, t.value.kind)), t.value.end)
  {
    hide TokenAt;
  }

  lemma CloseHead(c: char, t: string, tag: string, depth: nat)
    requires tag != "" && TokenAt([c] + t, tag).None?
    ensures Close([c] + t, tag, depth) == Plus(Close(t, tag, depth), 1)
  {
    hide TokenAt;
    CloseStep([c] + t, tag, depth);
    assert ([c] + t)[1..] == t;
  }

  lemma {:induction false} CloseText(w: string, t: string, tag: string, depth: nat)
    requires tag != "" && '<' !in w
    ensures Close(w + t, tag, depth) == Plus(Close(t, tag, depth), |w|)
  {
    hide TokenAt, Close, CloseAt;
    if w == "" {
      assert w + t == t;
    } else {
      CloseText(w[1..], t, tag, depth);
      assert w + t == [w[0]] + (w[1..] + t);
      CloseNeedsTag(w + t, tag);
      CloseHead(w[0], w[1..] + t, tag, depth);
    }
  }

  lemma CloseStamp(cs: seq<Cell>, tag: string, depth: nat)
    requires WellPlaced(cs) && cs != [] && cs[0].pre != "" && tag != ""
    ensures Close(Woven(cs), tag, depth) == Plus(Close(Woven(cs[1..]), tag, depth), |cs[0].pre| + 1)
    ensures Close(Plain(cs), tag, depth) == Plus(Close(Plain(cs[1..]), tag, depth), 1)
  {
    hide IsInset, CloseAt, Close, TokenAt;
    InsetNoTag(cs[0].pre);
    CloseText(cs[0].pre, [cs[0].c] + Woven(cs[1..]), tag, depth);
    CloseNeedsTag([cs[0].c] + Woven(cs[1..]), tag);
    CloseHead(cs[0].c, Woven(cs[1..]), tag, depth);
    CloseNeedsTag([cs[0].c] + Plain(cs[1..]), tag);
    CloseHead(cs[0].c, Plain(cs[1..]), tag, depth);
  }

  lemma CloseOfEmpty(cs: seq<Cell>, tag: string, depth: nat)
    requires tag != "" && cs == []
    ensures Close(Woven(cs), tag, depth) == None && Close(Plain(cs), tag, depth) == None
  {
  }

  /** An element's close tag is found at the same place, whatever was woven in. */
  lemma {:induction false} CloseWoven(cs: seq<Cell>, tag: string, depth: nat)
    requires WellPlaced(cs) && CleanCloses(cs) && TagName(tag)
    ensures |Plain(cs)| == |cs| && Close(Woven(cs), tag, depth) == OffOf(cs, Close(Plain(cs), tag, depth))
    decreases |cs|
  {
    hide Close, TokenAt, WellPlaced, CleanCloses, Off, OffOf, Woven, Plain, Solid, TagName;
    NameSolid(tag);
    PlainAt(cs);
    if cs == [] {
      CloseOfEmpty(cs, tag, depth);
      OffNone(cs);
    } else if cs[0].pre != "" {
      CloseStamp(cs, tag, depth);
      WellPlacedRest(cs, 1);
      CleanRest(cs, 1);
      CloseWoven(cs[1..], tag, depth);
      OffNext(cs, Close(Plain(cs[1..]), tag, depth));
    } else {
      CloseWovenAt(cs, tag, depth);
    }
  }

  lemma CloseWovenAt(cs: seq<Cell>, tag: string, depth: nat)
    requires WellPlaced(cs) && CleanCloses(cs) && TagName(tag) && cs != [] && cs[0].pre == ""
    ensures |Plain(cs)| == |cs| && Close(Woven(cs), tag, depth) == OffOf(cs, Close(Plain(cs), tag, depth))
    decreases |cs|, 0
  {
    hide Close, TokenAt, WellPlaced, CleanCloses, Off, Woven, Plain, Solid, TagName;
    NameSolid(tag);
    PlainAt(cs);
    WovenCons(cs);
    TokenWoven(cs, tag);
    CloseStep(Plain(cs), tag, depth);
    CloseStep(Woven(cs), tag, depth);
    var t := TokenAt(Plain(cs), tag);
    var n := if t.None? then 1 else t.value.end;
    PlainPart(cs, n);
    OffSuffix(cs, n);
    if n == 0 {
      OffZero(cs);
    } else if t.Some? && t.value.kind.Closes? && depth <= 1 {
    } else {
      var d := if t.None? then depth else Next(depth, t.value.kind);
      WellPlacedRest(cs, n);
      CleanRest(cs, n);
      PlainAt(cs[n..]);
      CloseWoven(cs[n..], tag, d);
      OffPlus(cs, n, Close(Plain(cs[n..]), tag, d));
      OffPositive(cs, n);
      if t.None? { OffStep(cs); }
    }
  }

  lemma OffZero(cs: seq<Cell>)
    ensures Off(cs, 0) == 0
  {
  }

  lemma OffPositive(cs: seq<Cell>, n: nat)
    requires 0 < n <= |cs|
    ensures Off(cs, n) > 0
  {
    OffStep(cs);
    OffAdds(cs, 1, n - 1);
  }
}
