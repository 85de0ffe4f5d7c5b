/** What the second harvest and the second stripping find in a stamped document. */
module StampLaws {
  import opened CommentTypes
  import opened StampScan
  import opened TextPrefix
  import opened Stamper
  import opened StampWeave
  import TextIndex

  // ---------------------------------------------------------------- tags in the woven text

  lemma BoundaryAgrees(cs: seq<Cell>, m: nat)
    requires WellPlaced(cs) && m <= Lead(cs)
    ensures m <= |Woven(cs)| && m <= |Plain(cs)|
    ensures BoundaryAt(Woven(cs), m) <==> BoundaryAt(Plain(cs), m)
  {
    LeadAgrees(cs);
    if Lead(cs) < |cs| { LeadEnds(cs); }
  }

  lemma {:induction false} BackOffAgrees(cs: seq<Cell>, m: nat)
    requires WellPlaced(cs) && m <= Lead(cs)
    ensures m <= |Woven(cs)| && m <= |Plain(cs)| && BackOff(Woven(cs), m) == BackOff(Plain(cs), m)
  {
    hide WellPlaced, BoundaryAt, Woven, Plain;
    BoundaryAgrees(cs, m);
    if m > 0 {
      BackOffAgrees(cs, m - 1);
    }
  }

  lemma {:induction false} NameRunAgrees(cs: seq<Cell>, from: nat)
    requires WellPlaced(cs) && from <= Lead(cs)
    ensures from <= |Woven(cs)| && from <= |Plain(cs)|
    ensures NameRun(Woven(cs), from) == NameRun(Plain(cs), from) <= Lead(cs)
    decreases Lead(cs) - from
  {
    LeadAgrees(cs);
    if Lead(cs) < |cs| { LeadEnds(cs); }
    hide WellPlaced, Woven, Plain;
    if from < Lead(cs) {
      NameRunAgrees(cs, from + 1);
    }
  }

  lemma ProbeAgrees(cs: seq<Cell>)
    requires WellPlaced(cs) && cs != [] && cs[0].pre == ""
    ensures ProbeAt(Woven(cs)) == ProbeAt(Plain(cs)) <= Lead(cs)
  {
    LeadAgrees(cs);
    if Lead(cs) < |cs| { LeadEnds(cs); }
    hide WellPlaced, Woven, Plain, NameRun, BackOff;
    if |cs| > 1 {
      NameRunAgrees(cs, 1);
      BackOffAgrees(cs, NameRun(Plain(cs), 1));
    }
  }

  lemma StampableSolid()
    ensures forall t :: t in STAMPABLE ==> Solid(t)
  {
    forall t | t in STAMPABLE ensures Solid(t) {
      StampableLetters(t);
    }
  }

  /** The same tag name is harvested at a character of either text. */
  lemma TagWoven(cs: seq<Cell>)
    requires WellPlaced(cs) && cs != [] && cs[0].pre == ""
    ensures TagAt(Woven(cs)) == TagAt(Plain(cs)) && (Stampable(Woven(cs)) <==> Stampable(Plain(cs)))
  {
    hide FirstOpen, WellPlaced, ProbeAt, Woven, Plain, Solid;
    StampableSolid();
    FirstOpenAgrees(cs, STAMPABLE);
    ProbeAgrees(cs);
    LeadAgrees(cs);
    var n := ProbeAt(Plain(cs));
    if n > 0 {
      assert Woven(cs)[1..n] == Plain(cs)[1..n];
    }
  }

  // ---------------------------------------------------------------- markers stay

  lemma BoundaryGrows(a: string, w: string, k: nat)
    requires k <= |a| && w != "" && !IsWord(w[0])
    ensures BoundaryAt(a + w, k) <==> BoundaryAt(a, k)
  {
  }

  lemma WordGrows(a: string, w: string, i: nat, word: string)
    requires w != "" && !IsWord(w[0]) && WordAt(a, i, word)
    ensures WordAt(a + w, i, word)
  {
    BoundaryGrows(a, w, i);
    BoundaryGrows(a, w, i + |word|);
    assert forall k :: 0 <= k < |word| ==> (a + w)[i..][k] == a[i..][k];
  }

  lemma {:induction false} QuoteGrows(a: string, w: string, from: nat)
    requires QuoteFrom(a, from).Some?
    ensures QuoteFrom(a + w, from) == QuoteFrom(a, from)
    decreases |a| - from
  {
    if a[from] != '"' {
      QuoteGrows(a, w, from + 1);
    }
  }

  lemma RunGrows(a: string, w: string, from: nat)
    requires from <= |a| && from + TextIndex.WsRun(a[from..], true) < |a|
    ensures TextIndex.WsRun((a + w)[from..], true) == TextIndex.WsRun(a[from..], true)
  {
    var s, t, n := a[from..], (a + w)[from..], TextIndex.WsRun(a[from..], true);
    assert forall k :: 0 <= k <= n ==> t[k] == s[k];
    TextIndex.WsRunIs(t, true, n);
  }

  lemma ValueGrows(a: string, w: string, from: nat)
    requires ValueAt(a, from).Some?
    ensures ValueAt(a + w, from) == ValueAt(a, from)
  {
    hide TextIndex.WsRun, QuoteFrom;
    var eq := from + TextIndex.WsRun(a[from..], true);
    RunGrows(a, w, from);
    RunGrows(a, w, eq + 1);
    var quote := eq + 1 + TextIndex.WsRun(a[eq + 1..], true);
    assert (a + w)[eq] == a[eq] && (a + w)[quote] == a[quote];
    QuoteGrows(a, w, quote + 1);
  }

  lemma ClassGrows(a: string, w: string, i: nat)
    requires w != "" && !IsWord(w[0]) && ClassAt(a, i)
    ensures ClassAt(a + w, i)
  {
    hide ValueAt, WordAt;
    ValueGrows(a, w, i + 5);
    assert forall k :: 0 <= k < 5 ==> (a + w)[i..][k] == a[i..][k];
    var v := ValueAt(a, i + 5).value;
    var j: nat :| v.0 <= j <= v.1 && j + |CLASS_MARKER| <= v.1 && WordAt(a, j, CLASS_MARKER);
    WordGrows(a, w, j, CLASS_MARKER);
  }

  /** Attributes that mark an artifact still do with an identity attribute behind them. */
  lemma MarkedGrows(a: string, w: string)
    requires w != "" && !IsWord(w[0]) && Marked(a)
    ensures Marked(a + w)
  {
    hide WordAt, ClassAt;
    if HasMarker(a) {
      var i: nat :| i <= |a| && WordAt(a, i, MARKER);
      WordGrows(a, w, i, MARKER);
      assert i <= |a + w|;
      assert HasMarker(a + w);
    } else {
      var i: nat :| i <= |a| && ClassAt(a, i);
      ClassGrows(a, w, i);
      assert i <= |a + w|;
      assert HasClass(a + w);
    }
  }

  // ---------------------------------------------------------------- stripping

  /** The attribute name occurs nowhere. */
  predicate NoAids(s: string) {
    forall i :: 0 <= i <= |s| ==> !StartsWith(s[i..], AID_ATTR)
  }

  lemma NoAidsPart(s: string, i: nat, j: nat)
    requires NoAids(s) && i <= j <= |s|
    ensures NoAids(s[i..j])
  {
    forall k | 0 <= k <= j - i ensures !StartsWith(s[i..j][k..], AID_ATTR) {
      assert !StartsWith(s[i + k..], AID_ATTR);
      var n := |AID_ATTR|;
      if k + n <= j - i {
        assert s[i..j][k..][..n] == s[i + k..][..n];
      }
    }
  }

  lemma {:induction false} StripNothing(s: string, run: bool)
    requires NoAids(s)
    ensures Strip(s, run) == s
  {
    if s != "" {
      NoAidsPart(s, 1, |s|);
      assert s[1..|s|] == s[1..];
      var k := if run then TextIndex.WsRun(s, true) else 1;
      assert !StartsWith(s[k..], AID_ATTR);
      StripNothing(s[1..], run);
    }
  }

  lemma {:induction false} QuoteAfter(aid: string, t: string, i: nat)
    requires PlainAid(aid) && i <= |aid|
    ensures QuoteFrom(aid + ("\"" + t), i) == Some(|aid|)
    decreases |aid| - i
  {
    AidIsText(aid);
    if i < |aid| {
      QuoteAfter(aid, t, i + 1);
    }
  }

  lemma {:induction false} QuoteShift(s: string, n: nat, i: nat)
    requires n + i <= |s|
    ensures QuoteFrom(s, n + i) == Plus(QuoteFrom(s[n..], i), n)
    decreases |s| - i
  {
    if n + i < |s| && s[n + i] != '"' {
      QuoteShift(s, n, i + 1);
    }
  }

  /** The value part: "=" and the quoted identity. */
  lemma StampValue(s: string, k: nat, aid: string, t: string)
    requires PlainAid(aid) && k + 2 <= |s| && s[k] == '=' && s[k + 1] == '"' && s[k + 2..] == aid + ("\"" + t)
    ensures ValueAt(s, k) == Some((k + 2, k + 2 + |aid|))
  {
    hide PlainAid;
    TextIndex.WsRunIs(s[k..], true, 0);
    TextIndex.WsRunIs(s[k + 1..], true, 0);
    QuoteAfter(aid, t, 0);
    QuoteShift(s, k + 2, 0);
  }

  /** An identity attribute is matched exactly. */
  lemma StampMatched(w: string, t: string, run: bool)
    requires IsStamp(w)
    ensures AidAt(w + t, run) == Some(|w|)
  {
    hide PlainAid, ValueAt;
    var aid :| PlainAid(aid) && w == Stamp(aid);
    var s, rest := w + t, aid + ("\"" + t);
    var k := |AID_ATTR| + 1;
    assert s == " " + (AID_ATTR + ("=\"" + rest));
    assert s[1..] == AID_ATTR + ("=\"" + rest);
    assert s[1..][..|AID_ATTR|] == AID_ATTR;
    assert s[k..] == "=\"" + rest;
    assert s[k..][0] == '=' && s[k..][1] == '"' && s[k..][2..] == rest;
    assert s[k + 2..] == rest;
    TextIndex.WsRunIs(s, true, 1);
    StampValue(s, k, aid, t);
  }

  lemma DiffersAt(s: string, w: string, k: nat)
    requires k < |w| && (k < |s| ==> s[k] != w[k])
    ensures !StartsWith(s, w)
  {
    assert |w| <= |s| ==> s[..|w|][k] == s[k];
  }

  lemma StartsAgrees(cs: seq<Cell>, w: string)
    requires WellPlaced(cs) && Solid(w)
    ensures StartsWith(Woven(cs), w) <==> StartsWith(Plain(cs), w)
  {
    LeadAgrees(cs);
    if Lead(cs) < |cs| { LeadEnds(cs); }
    hide WellPlaced, Woven, Plain;
    var p, q, k := Plain(cs), Woven(cs), Lead(cs);
    if |w| <= k {
      assert q[..|w|] == p[..|w|];
    } else {
      assert w[k] in w;
      DiffersAt(p, w, k);
      DiffersAt(q, w, k);
    }
  }

  lemma StripHead(c: char, t: string, run: bool)
    requires AidAt([c] + t, run).None?
    ensures Strip([c] + t, run) == [c] + Strip(t, run)
  {
    hide AidAt;
    assert ([c] + t)[1..] == t;
  }

  lemma StripStamp(w: string, t: string, run: bool)
    requires IsStamp(w)
    ensures Strip(w + t, run) == Strip(t, run)
  {
    StampMatched(w, t, run);
    hide AidAt, IsStamp;
    assert (w + t)[|w|..] == t;
  }

  lemma NoAidsHere(cs: seq<Cell>)
    requires WellPlaced(cs) && cs != [] && NoAids(Plain(cs))
    ensures AidAt([cs[0].c] + Woven(cs[1..]), false).None? && NoAids(Plain(cs[1..]))
  {
    PlainAt(cs);
    PlainPart(cs, 1);
    NoAidsPart(Plain(cs), 1, |cs|);
    assert Plain(cs)[1..|cs|] == Plain(cs[1..]);
    assert !StartsWith(Plain(cs)[1..], AID_ATTR);
    WellPlacedRest(cs, 1);
    StartsAgrees(cs[1..], AID_ATTR);
    assert ([cs[0].c] + Woven(cs[1..]))[1..] == Woven(cs[1..]);
  }

  /** Stripping removes exactly what was woven in. */
  lemma {:induction false} StripWoven(cs: seq<Cell>)
    requires WellPlaced(cs) && NoSlashes(cs) && NoAids(Plain(cs))
    ensures Strip(Woven(cs), false) == Plain(cs)
  {
    if cs != [] {
      NoAidsHere(cs);
      WellPlacedRest(cs, 1);
      NoSlashesRest(cs, 1);
      hide NoAids, AidAt, Strip, IsStamp, IsInset;
      StripWoven(cs[1..]);
      StripHead(cs[0].c, Woven(cs[1..]), false);
      if cs[0].pre != "" {
        StripStamp(cs[0].pre, [cs[0].c] + Woven(cs[1..]), false);
      } else {
        assert "" + ([cs[0].c] + Woven(cs[1..])) == [cs[0].c] + Woven(cs[1..]);
      }
    }
  }

  lemma StartsAppend(a: string, w: string, p: string)
    requires w != "" && w[0] !in p && !StartsWith(a, p)
    ensures !StartsWith(a + w, p)
  {
    if |a| < |p| {
      assert p[|a|] in p;
      DiffersAt(a + w, p, |a|);
    } else {
      assert (a + w)[..|p|] == a[..|p|];
    }
  }

  lemma WsNotInName(c: char)
    requires TextIndex.IsJsWs(c)
    ensures c !in AID_ATTR
  {
  }

  lemma NoAidInFront(attrs: string, w: string)
    requires attrs != "" && NoAids(attrs) && !TextIndex.IsJsWs(attrs[|attrs| - 1]) && w != "" && TextIndex.IsJsWs(w[0])
    ensures AidAt(attrs + w, true).None?
  {
    hide TextIndex.IsJsWs, NoAids, ValueAt;
    var s := attrs + w;
    assert s[0] == attrs[0];
    if TextIndex.IsJsWs(attrs[0]) {
      var k := TextIndex.WsRun(s, true);
      assert s[|attrs| - 1] == attrs[|attrs| - 1];
      assert k < |attrs|;
      NoAidsFrom(attrs, k);
      WsNotInName(w[0]);
      StartsAppend(attrs[k..], w, AID_ATTR);
      assert s[k..] == attrs[k..] + w;
    }
  }

  lemma NoAidsFrom(s: string, k: nat)
    requires NoAids(s) && k <= |s|
    ensures !StartsWith(s[k..], AID_ATTR)
  {
  }

  /** An identity attribute is matched with all the white space before it. */
  lemma StampMatchedWhole(ws: string, aid: string, t: string)
    requires PlainAid(aid) && forall k :: 0 <= k < |ws| ==> TextIndex.IsJsWs(ws[k])
    ensures AidAt(ws + (Stamp(aid) + t), true) == Some(|ws| + |Stamp(aid)|)
  {
    hide PlainAid, ValueAt, TextIndex.IsJsWs;
    BlankIsWs();
    var s, n, rest := ws + (Stamp(aid) + t), |ws| + 1, aid + ("\"" + t);
    var k := n + |AID_ATTR|;
    assert Stamp(aid) + t == " " + (AID_ATTR + ("=\"" + rest));
    assert s[|ws|] == ' ' && s[n..] == AID_ATTR + ("=\"" + rest);
    assert s[n..][..|AID_ATTR|] == AID_ATTR;
    assert s[k..] == "=\"" + rest;
    assert s[k..][0] == '=' && s[k..][1] == '"' && s[k..][2..] == rest;
    assert s[k + 2..] == rest;
    assert s[n] == s[n..][0] == 'd';
    TextIndex.WsRunIs(s, true, n);
    StampValue(s, k, aid, t);
  }

  lemma BlankIsWs()
    ensures TextIndex.IsJsWs(' ') && !TextIndex.IsJsWs('d')
  {
  }

  /** Attributes without the white space at their end. */
  function Trunk(attrs: string): (r: string)
    ensures r <= attrs && (r != "" ==> !TextIndex.IsJsWs(r[|r| - 1]))
    ensures forall k :: |r| <= k < |attrs| ==> TextIndex.IsJsWs(attrs[k])
  {
    if attrs != "" && TextIndex.IsJsWs(attrs[|attrs| - 1]) then Trunk(attrs[..|attrs| - 1]) else attrs
  }

  /** Stripping removes the identity put behind a text, with the white space that stood there. */
  lemma {:induction false} StripBehind(trunk: string, ws: string, aid: string, t: string)
    requires PlainAid(aid) && NoAids(trunk) && (trunk != "" ==> !TextIndex.IsJsWs(trunk[|trunk| - 1]))
    requires (forall k :: 0 <= k < |ws| ==> TextIndex.IsJsWs(ws[k])) && (t == "" || t == "/")
    ensures Strip(trunk + (ws + (Stamp(aid) + t)), true) == trunk + t
  {
    hide NoAids, AidAt, Strip, PlainAid, TextIndex.IsJsWs;
    var w := ws + (Stamp(aid) + t);
    if trunk == "" {
      assert trunk + w == w && trunk + t == t;
      StampMatchedWhole(ws, aid, t);
      assert ws + Stamp(aid) + t == w && |ws + Stamp(aid)| == |ws| + |Stamp(aid)| && Stamp(aid) != "";
      StripMatched(ws + Stamp(aid), t);
      StripShort(t);
    } else {
      StampStarts(ws, aid, t);
      NoAidInFront(trunk, w);
      NoAidsPart(trunk, 1, |trunk|);
      assert trunk[1..|trunk|] == trunk[1..];
      StripBehind(trunk[1..], ws, aid, t);
      assert trunk + w == [trunk[0]] + (trunk[1..] + w);
      StripHead(trunk[0], trunk[1..] + w, true);
      assert [trunk[0]] + (trunk[1..] + t) == trunk + t;
    }
  }

  lemma StampStarts(ws: string, aid: string, t: string)
    requires forall k :: 0 <= k < |ws| ==> TextIndex.IsJsWs(ws[k])
    ensures var w := ws + (Stamp(aid) + t); w != "" && TextIndex.IsJsWs(w[0])
  {
    assert (Stamp(aid) + t)[0] == ' ';
  }

  lemma StripMatched(w: string, t: string)
    requires w != "" && AidAt(w + t, true) == Some(|w|)
    ensures Strip(w + t, true) == Strip(t, true)
  {
    hide AidAt;
    assert (w + t)[|w|..] == t;
  }

  lemma StripShort(t: string)
    requires t == "" || t == "/"
    ensures Strip(t, true) == t
  {
    assert "/"[1..] == "";
  }

  /** Of attributes with an inset behind them, stripping leaves the trunk and the inset's slash. */
  lemma StripInset(attrs: string, aid: string, slash: bool)
    requires PlainAid(aid) && NoAids(attrs)
    ensures Strip(attrs + Inset(aid, slash), true) == Trunk(attrs) + if slash then "/" else ""
  {
    hide NoAids, Strip, PlainAid, Stamp;
    var trunk, ws, t := Trunk(attrs), attrs[|Trunk(attrs)|..], if slash then "/" else "";
    NoAidsPart(attrs, 0, |trunk|);
    assert attrs[0..|trunk|] == trunk;
    StripBehind(trunk, ws, aid, t);
    assert Inset(aid, slash) == Stamp(aid) + t;
    assert attrs + (Stamp(aid) + t) == trunk + (ws + (Stamp(aid) + t));
  }

  // ---------------------------------------------------------------- the second harvest

  /** The cells of an artifact's open tag: the identity stands before the final ">" and nowhere else. */
  ghost predicate StampedTag(cs: seq<Cell>, len: nat, w: string) {
    0 < len <= |cs| && cs[len - 1] == Cell(w, '>') && IsInset(w) && forall k :: 0 <= k < len - 1 ==> cs[k].pre == ""
  }

  lemma StampedTagText(cs: seq<Cell>, len: nat, w: string)
    requires StampedTag(cs, len, w)
    ensures IsInset(w)
    ensures |Plain(cs)| == |cs| && Off(cs, len) == len + |w| <= |Woven(cs)|
    ensures Woven(cs)[..len + |w|] == Plain(cs)[..len - 1] + w + ">"
  {
    hide IsInset, Woven, Plain, Lead;
    PlainAt(cs);
    LeadPlain(cs, len - 1);
    OffLead(cs, len - 1);
    OffSuffix(cs, len);
    WovenSplit(cs[..len], len - 1);
    assert cs[..len][..len - 1] == cs[..len - 1] && cs[..len][len - 1..] == [Cell(w, '>')];
    WovenOne(w);
  }

  lemma WovenOne(w: string)
    ensures Woven([Cell(w, '>')]) == w + ">"
  {
    assert [Cell(w, '>')][1..] == [];
    assert ['>'] + Woven([]) == ">";
  }

  /** Nothing is harvested in the woven text where nothing was, if nothing is woven into the tag there. */
  lemma SecondNone(cs: seq<Cell>)
    requires WellPlaced(cs) && cs != [] && cs[0].pre == "" && ElementAt(Plain(cs)).None? && |Plain(cs)| == |cs|
    requires TagAt(Plain(cs)).Some? && OpenEnd(Plain(cs)).Some? ==>
      forall k :: 0 <= k < OpenEnd(Plain(cs)).value ==> cs[k].pre == ""
    ensures Woven(cs) != "" && ElementAt(Woven(cs)).None?
  {
    hide TagAt, OpenEnd, Stampable, Marked, WellPlaced, Woven, Plain, Off, Lead;
    TagWoven(cs);
    OpenEndWoven(cs);
    if TagAt(Plain(cs)).Some? && OpenEnd(Plain(cs)).Some? {
      var n, k := OpenEnd(Plain(cs)).value, |TagAt(Plain(cs)).value| + 1;
      LeadPlain(cs, n);
      OffLead(cs, n);
      LeadAgrees(cs);
      NameIsShort(Plain(cs));
      assert Woven(cs)[k..n - 1] == Plain(cs)[k..n - 1];
    }
  }

  /** The artifact harvested a second time: the same tag, its attributes with the identity behind them. */
  lemma SecondElement(cs: seq<Cell>, e: Element, w: string)
    requires WellPlaced(cs) && cs != [] && ElementAt(Plain(cs)) == Some(e) && StampedTag(cs, e.len, w)
    ensures Woven(cs) != "" && ElementAt(Woven(cs)) == Some(Element(e.tag, e.len + |w|, e.attrs + w))
  {
    hide TagAt, OpenEnd, Stampable, Marked, WellPlaced, Woven, Plain, Off;
    FirstPlain(cs, e.len, w);
    TagWoven(cs);
    OpenEndWoven(cs);
    StampedTagText(cs, e.len, w);
    InsetHead(w);
    NameIsShort(Plain(cs));
    if Marked(e.attrs) { MarkedGrows(e.attrs, w); }
    SecondAttrs(Woven(cs), Plain(cs), |e.tag| + 1, e.len, w);
  }

  lemma FirstPlain(cs: seq<Cell>, len: nat, w: string)
    requires StampedTag(cs, len, w) && len >= 2
    ensures cs[0].pre == ""
  {
    hide IsInset;
  }

  lemma SecondAttrs(woven: string, plain: string, k: nat, len: nat, w: string)
    requires k < len <= |plain| && len + |w| <= |woven| && woven[..len + |w|] == plain[..len - 1] + w + ">"
    ensures woven[k..len + |w| - 1] == plain[k..len - 1] + w
  {
    var n, head := len + |w|, plain[..len - 1];
    PartOfPart(woven, n, k, n - 1);
    PartOfPart(plain, len - 1, k, len - 1);
    assert (head + w + ">")[k..n - 1] == head[k..] + w;
  }

  lemma PartOfPart(s: string, n: nat, i: nat, j: nat)
    requires i <= j <= n <= |s|
    ensures s[..n][i..j] == s[i..j]
  {
  }

  /** The close tag found is a close tag at the end of what it closes. */
  lemma CloseEndsInTag(s: string, tag: string) returns (k: nat)
    requires tag != "" && Close(s, tag, 1).Some?
    ensures |tag| + 3 <= k <= Close(s, tag, 1).value <= |s|
    ensures CloseAt(s[Close(s, tag, 1).value - k..], tag) == Some(k)
  {
    hide Close, Tokens, CloseAt, OpenAt, RawAt;
    CloseIsFirstZero(s, tag, 1);
    var i: nat :| i < |Tokens(s, tag)| && FirstZero(Tokens(s, tag), 1, i)
        && Tokens(s, tag)[i].end == Close(s, tag, 1).value;
    TokensStand(s, tag, i);
    k := Tokens(s, tag)[i].end - Tokens(s, tag)[i].start;
  }

  /** Nothing is woven into the close tag that starts these cells. */
  lemma CloseTagCells(us: seq<Cell>, tag: string, k: nat)
    requires WellPlaced(us) && CleanCloses(us) && TagName(tag) && us != [] && us[0].pre == ""
    requires CloseAt(Plain(us), tag) == Some(k)
    ensures |tag| + 3 <= k <= |us| && Off(us, k) == k && Off(us, k - (|tag| + 3)) == k - (|tag| + 3)
  {
    hide CloseAt, WellPlaced, CleanCloses, Off, Solid, TagName;
    NameSolid(tag);
    CleanHead(us, tag);
    CloseAtWoven(us, tag);
    OffLead(us, k);
    OffLead(us, k - (|tag| + 3));
  }

  /** The last part of what an element encloses, its close tag, has nothing woven into it. */
  lemma InnerCells(cs: seq<Cell>, tag: string, m: nat)
    requires WellPlaced(cs) && CleanCloses(cs) && TagName(tag) && Close(Plain(cs), tag, 1) == Some(m)
    ensures |tag| + 3 <= m <= |cs| && Off(cs, m - (|tag| + 3)) + |tag| + 3 == Off(cs, m)
  {
    hide Close, CloseAt, WellPlaced, CleanCloses, Off, Solid, TagName, Plain, Woven;
    PlainAt(cs);
    NameSolid(tag);
    var k := CloseEndsInTag(Plain(cs), tag);
    var start := m - k;
    PlainPart(cs, start);
    WellPlacedRest(cs, start);
    CleanRest(cs, start);
    PlainAt(cs[start..]);
    CloseStartsTag(Plain(cs)[start..], tag);
    PreOfTag(cs, start);
    CloseTagCells(cs[start..], tag, k);
    OffAdds(cs, start, k);
    OffAdds(cs, start, k - (|tag| + 3));
  }

  lemma CloseStartsTag(s: string, tag: string)
    requires CloseAt(s, tag).Some?
    ensures s != "" && s[0] == '<'
  {
  }

  lemma PreOfTag(cs: seq<Cell>, k: nat)
    requires WellPlaced(cs) && k < |cs| && cs[k].c != '>'
    ensures cs[k..] != [] && cs[k..][0].pre == ""
  {
    hide IsInset;
  }

  /** What the second pass takes for the inner HTML strips to what the first took. */
  lemma SecondInner(cs: seq<Cell>, e: Element, w: string)
    requires WellPlaced(cs) && NoSlashes(cs) && CleanCloses(cs) && NoAids(Plain(cs)) && StampedTag(cs, e.len, w)
    requires !SelfCloses(e.attrs + w) && TagName(e.tag) && !SelfCloses(e.attrs) && e.len <= |Plain(cs)|
    ensures e.len + |w| <= |Woven(cs)|
    ensures Strip(Inner(Woven(cs), Element(e.tag, e.len + |w|, e.attrs + w)), false) ==
      Strip(Inner(Plain(cs), e), false)
  {
    hide Close, WellPlaced, NoSlashes, IsStamp, CleanCloses, NoAids, Off, OffOf, Woven, Plain, Strip, Solid, TagName,
         SelfCloses, StampedTag;
    NameSolid(e.tag);
    StampedTagText(cs, e.len, w);
    var us := cs[e.len..];
    OffSuffix(cs, e.len);
    PlainPart(cs, e.len);
    if !IsVoid(e) {
      WellPlacedRest(cs, e.len);
      NoSlashesRest(cs, e.len);
      CleanRest(cs, e.len);
      CloseWoven(us, e.tag, 1);
      NoAidsPart(Plain(cs), e.len, |cs|);
      assert Plain(cs)[e.len..|cs|] == Plain(us);
      if Close(Plain(us), e.tag, 1).Some? {
        var m := Close(Plain(us), e.tag, 1).value;
        SecondInnerCut(us, e.tag, m);
      } else {
        OffNone(us);
      }
    }
  }

  lemma SecondInnerCut(us: seq<Cell>, tag: string, m: nat)
    requires WellPlaced(us) && NoSlashes(us) && CleanCloses(us) && NoAids(Plain(us)) && TagName(tag)
    requires Close(Plain(us), tag, 1) == Some(m)
    ensures |tag| + 3 <= m <= |us| && |Plain(us)| == |us| && |tag| + 3 <= Off(us, m) <= |Woven(us)|
    ensures OffOf(us, Some(m)) == Some(Off(us, m))
    ensures Strip(Woven(us)[..Off(us, m) - (|tag| + 3)], false) == Strip(Plain(us)[..m - (|tag| + 3)], false)
  {
    hide Close, WellPlaced, NoSlashes, CleanCloses, NoAids, Woven, Plain, Strip, Solid, TagName;
    NameSolid(tag);
    InnerCells(us, tag, m);
    var cut := m - (|tag| + 3);
    OffSuffix(us, m);
    OffSuffix(us, cut);
    PlainPart(us, cut);
    WellPlacedRest(us, cut);
    NoSlashesRest(us, cut);
    NoAidsPart(Plain(us), 0, cut);
    assert Plain(us)[0..cut] == Plain(us)[..cut];
    StripWoven(us[..cut]);
    StripNothing(Plain(us[..cut]), false);
  }

  /** With an inset behind them attributes end in a slash exactly when the inset does. */
  lemma InsetCloses(attrs: string, aid: string, slash: bool)
    ensures SelfCloses(attrs + Inset(aid, slash)) <==> slash
  {
    var s := attrs + Inset(aid, slash);
    assert s[|s| - 1] == if slash then '/' else '"';
  }
}
