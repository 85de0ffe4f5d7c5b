/** The stamper's loops: scanning a tag, searching a close tag, harvesting artifacts, and splicing the stamped
    open tags into the document. */
module StampMachine {
  import opened CommentTypes
  import opened StampScan
  import opened Stamper
  import opened StampIdentity

  /** attrAwareOpenTagEnd, -1 when the tag is unterminated. */
  method AttrAwareOpenTagEnd(html: string, lt: nat) returns (end: int)
    requires lt < |html|
    ensures end == if OpenEnd(html[lt..]).None? then -1 else lt + OpenEnd(html[lt..]).value
  {
    hide ScanEnd;
    var quote, i := NUL, lt + 1;
    assert html[lt..][1..] == html[lt + 1..];
    while i < |html|
      invariant lt < i <= |html|
      invariant OpenEnd(html[lt..]) == Plus(ScanEnd(html[i..], quote), i - lt)
    {
      ScanStep(html, i, quote);
      var ch := html[i];
      if quote != NUL {
        if ch == quote {
          quote := NUL;
        }
      } else if ch == '"' || ch == '\'' {
        quote := ch;
      } else if ch == '>' {
        return i + 1;
      }
      i := i + 1;
    }
    assert html[i..] == "";
    return -1;
  }

  lemma ScanStep(html: string, i: nat, quote: char)
    requires i < |html|
    ensures ScanEnd(html[i..], quote) ==
      if quote != NUL then Plus(ScanEnd(html[i + 1..], if html[i] == quote then NUL else quote), 1)
      else if html[i] == '"' || html[i] == '\'' then Plus(ScanEnd(html[i + 1..], html[i]), 1)
      else if html[i] == '>' then Some(1)
      else Plus(ScanEnd(html[i + 1..], NUL), 1)
  {
    assert html[i..][1..] == html[i + 1..];
  }

  /** The next match of a close tag of that name at or after from. */
  method NextClose(html: string, tag: string, from: nat) returns (at: Option<nat>, end: nat)
    requires from <= |html|
    ensures at.Some? ==>
      from <= at.value < end <= |html| && CloseAt(html[at.value..], tag) == Some(end - at.value)
    ensures forall p :: from <= p < (if at.Some? then at.value else |html|) ==> CloseAt(html[p..], tag).None?
  {
    var p := from;
    while p < |html|
      invariant from <= p <= |html|
      invariant forall q :: from <= q < p ==> CloseAt(html[q..], tag).None?
    {
      var m := CloseAt(html[p..], tag);
      if m.Some? {
        return Some(p), p + m.value;
      }
      p := p + 1;
    }
    return None, 0;
  }

  /** The next match of one of the open tags. */
  method NextOpen(html: string, tags: seq<string>, from: nat) returns (at: Option<nat>)
    requires from <= |html|
    ensures at.Some? ==> from <= at.value < |html| && FirstOpen(html[at.value..], tags).Some?
    ensures forall p :: from <= p < (if at.Some? then at.value else |html|) ==> FirstOpen(html[p..], tags).None?
  {
    var p := from;
    while p < |html|
      invariant from <= p <= |html|
      invariant forall q :: from <= q < p ==> FirstOpen(html[q..], tags).None?
    {
      if FirstOpen(html[p..], tags).Some? {
        return Some(p);
      }
      p := p + 1;
    }
    return None;
  }

  /** The attributes handed over for a raw-text tag end in its ">", so this never holds for them. */
  lemma NeverSelfCloses(attrs: string)
    requires attrs != "" && attrs[|attrs| - 1] == '>'
    ensures !SelfCloses(attrs)
  {
  }

  /** skipRawTextBodyAt: past the first close tag of the raw element, unless the tag closes itself. */
  method SkipRawTextBodyAt(html: string, openTag: string, attrs: string, openEnd: nat) returns (end: nat)
    requires openEnd <= |html|
    ensures end == openEnd + if SelfCloses(attrs) then 0 else SkipRaw(html[openEnd..], openTag)
  {
    if SelfCloses(attrs) {
      return openEnd;
    }
    var at, close := NextClose(html, openTag, openEnd);
    SkipsTo(html, openTag, openEnd, if at.Some? then at.value else |html|);
    return if at.None? then |html| else close;
  }

  lemma {:induction false} SkipsTo(html: string, tag: string, from: nat, p: nat)
    requires from <= p <= |html| && forall q :: from <= q < p ==> CloseAt(html[q..], tag).None?
    ensures SkipRaw(html[from..], tag) == p - from + SkipRaw(html[p..], tag)
    decreases p - from
  {
    if from < p {
      assert html[from..][1..] == html[from + 1..];
      SkipsTo(html, tag, from + 1, p);
    }
  }

  lemma CloseOther(html: string, tag: string, p: nat, depth: nat)
    requires tag != "" && p < |html| && TokenAt(html[p..], tag).None?
    ensures Close(html[p..], tag, depth) == Plus(Close(html[p + 1..], tag, depth), 1)
  {
    assert html[p..][1..] == html[p + 1..];
  }

  /** Nothing to consume up to p. */
  lemma {:induction false} CloseSkipsTo(html: string, tag: string, depth: nat, from: nat, p: nat)
    requires tag != "" && from <= p <= |html| && forall q :: from <= q < p ==> TokenAt(html[q..], tag).None?
    ensures Close(html[from..], tag, depth) == Plus(Close(html[p..], tag, depth), p - from)
    decreases p - from
  {
    hide TokenAt;
    if from < p {
      CloseOther(html, tag, from, depth);
      CloseSkipsTo(html, tag, depth, from + 1, p);
    }
  }

  /** What was found next: its kind, its place, and for a close tag its end. */
  datatype Match = NoMatch | Match(kind: Kind, at: nat, end: nat)

  predicate NothingUpTo(html: string, tag: string, scan: nat, p: nat)
    requires tag != "" && scan <= p <= |html|
  {
    forall q :: scan <= q < p ==> TokenAt(html[q..], tag).None?
  }

  predicate MatchStands(s: string, tag: string, kind: Kind, n: int) {
    match kind
    case Closes => CloseAt(s, tag).Some? && CloseAt(s, tag).value == n
    case Opens => CloseAt(s, tag).None? && OpenAt(s, tag)
    case Raw => CloseAt(s, tag).None? && !OpenAt(s, tag) && RawAt(s).Some?
  }

  lemma NoTokenAt(s: string, tag: string)
    requires tag != "" && CloseAt(s, tag).None? && FirstOpen(s, [tag]).None? && FirstOpen(s, RAW_TAGS).None?
    ensures TokenAt(s, tag).None?
  {
    FirstOpenHas(s, [tag]);
    assert tag in [tag];
  }

  /** relMatch for the three patterns, then earliest: on equal positions a close tag wins over an open tag, and
      an open tag over a raw-text tag. */
  method NextToken(html: string, tag: string, scan: nat) returns (m: Match)
    requires tag != "" && scan <= |html|
    ensures m.NoMatch? ==> NothingUpTo(html, tag, scan, |html|)
    ensures m.Match? ==> scan <= m.at < |html| && NothingUpTo(html, tag, scan, m.at)
    ensures m.Match? ==> MatchStands(html[m.at..], tag, m.kind, m.end - m.at)
  {
    var closeAt, closeEnd := NextClose(html, tag, scan);
    var openAt := NextOpen(html, [tag], scan);
    var rawAt := NextOpen(html, RAW_TAGS, scan);
    m := NoMatch;
    var best := |html|;
    if closeAt.Some? {
      m, best := Match(Closes, closeAt.value, closeEnd), closeAt.value;
    }
    if openAt.Some? && openAt.value < best {
      m, best := Match(Opens, openAt.value, 0), openAt.value;
    }
    if rawAt.Some? && rawAt.value < best {
      m, best := Match(Raw, rawAt.value, 0), rawAt.value;
    }
    forall p | scan <= p < best ensures TokenAt(html[p..], tag).None? {
      NoTokenAt(html[p..], tag);
    }
    if best < |html| {
      FirstOpenHas(html[best..], [tag]);
    }
  }

  /** How far a match reaches. */
  function Reach(s: string, tag: string, kind: Kind): Option<nat> {
    match kind
    case Closes => CloseAt(s, tag)
    case Opens => Some(if s != "" && OpenEnd(s).Some? then OpenEnd(s).value else |tag| + 1)
    case Raw =>
      if s == "" || OpenEnd(s).None? || RawAt(s).None? then None
      else Some(OpenEnd(s).value + SkipRaw(s[OpenEnd(s).value..], RawAt(s).value))
  }

  /** What a match does to the search. */
  lemma CloseAtMatch(html: string, tag: string, p: nat, depth: nat, kind: Kind, n: nat)
    requires tag != "" && p < |html| && depth >= 1
    requires kind.Closes? || MatchStands(html[p..], tag, kind, 0)
    requires Reach(html[p..], tag, kind) == Some(n)
    ensures 0 < n && p + n <= |html|
    ensures Close(html[p..], tag, depth) ==
      if kind.Closes? && depth == 1 then Some(n) else Plus(Close(html[p + n..], tag, Next(depth, kind)), n)
  {
    assert TokenAt(html[p..], tag) == Some(Token(kind, 0, n));
    assert html[p..][n..] == html[p + n..];
  }

  lemma CloseAtOpenRaw(s: string, tag: string, depth: nat)
    requires tag != "" && s != "" && MatchStands(s, tag, Raw, 0) && OpenEnd(s).None?
    ensures Close(s, tag, depth) == None
  {
    assert TokenAt(s, tag) == Some(Token(Raw, 0, 0));
  }

  /** Where a match ends, None for a raw-text tag that is unterminated. */
  method MatchEnd(html: string, tag: string, m: Match) returns (end: Option<nat>)
    requires tag != "" && m.Match? && m.at < |html| && MatchStands(html[m.at..], tag, m.kind, m.end - m.at)
    ensures end ==
      if Reach(html[m.at..], tag, m.kind).None? then None else Some(m.at + Reach(html[m.at..], tag, m.kind).value)
    ensures end.None? ==> m.kind.Raw? && OpenEnd(html[m.at..]).None?
  {
    hide CloseAt, OpenAt, OpenEnd, SkipRaw, RawAt;
    if m.kind.Closes? {
      return Some(m.end);
    }
    var oEnd := AttrAwareOpenTagEnd(html, m.at);
    if m.kind.Opens? {
      return Some(if oEnd < 0 then m.at + |tag| + 1 else oEnd);
    }
    if oEnd < 0 {
      return None;
    }
    var rawTag := RawAt(html[m.at..]).value;
    assert html[m.at..oEnd][oEnd - m.at - 1] == html[m.at..][oEnd - m.at - 1];
    assert html[m.at..][oEnd - m.at..] == html[oEnd..];
    NeverSelfCloses(html[m.at..oEnd]);
    var past := SkipRawTextBodyAt(html, rawTag, html[m.at..oEnd], oEnd);
    return Some(past);
  }

  /** findCloseEnd: past the element's close tag, or the end of its open tag when there is none. */
  method FindCloseEnd(html: string, tag: string, openEnd: nat) returns (end: nat)
    requires tag != "" && openEnd <= |html|
    ensures openEnd <= end
    ensures end == openEnd + if Close(html[openEnd..], tag, 1).Some? then Close(html[openEnd..], tag, 1).value else 0
  {
    hide Close, TokenAt, CloseAt, OpenAt, RawAt, Reach, OpenEnd;
    var depth, scan := 1, openEnd;
    ghost var r := Close(html[openEnd..], tag, 1);
    while scan < |html|
      invariant openEnd <= scan <= |html| && depth >= 1
      invariant r == Plus(Close(html[scan..], tag, depth), scan - openEnd)
    {
      var m := NextToken(html, tag, scan);
      if m.NoMatch? {
        CloseSkipsTo(html, tag, depth, scan, |html|);
        scan := |html|;
        break;
      }
      CloseSkipsTo(html, tag, depth, scan, m.at);
      var next := MatchEnd(html, tag, m);
      if next.None? {
        CloseAtOpenRaw(html[m.at..], tag, depth);
        return openEnd;
      }
      CloseAtMatch(html, tag, m.at, depth, m.kind, next.value - m.at);
      if m.kind.Closes? {
        depth := depth - 1;
        if depth == 0 {
          return next.value;
        }
      } else if m.kind.Opens? {
        depth := depth + 1;
      }
      scan := next.value;
    }
    CloseOfNothing(html[scan..], tag, depth);
    return openEnd;
  }

  lemma CloseOfNothing(s: string, tag: string, depth: nat)
    requires tag != "" && s == ""
    ensures Close(s, tag, depth) == None
  {
  }

  // ---------------------------------------------------------------- harvesting

  /** stampElement: an artifact, its place and the HTML inside it. */
  datatype Harvested = Harvested(start: nat, e: Element, inner: string)

  /** A harvested element is the artifact at its place. */
  predicate Right(html: string, h: Harvested) {
    h.start < |html| && ElementAt(html[h.start..]) == Some(h.e) && h.inner == Inner(html[h.start..], h.e)
  }

  function Starts(hs: seq<Harvested>): seq<nat> {
    if hs == [] then [] else Starts(hs[..|hs| - 1]) + [hs[|hs| - 1].start]
  }

  lemma {:induction false} StartsAt(hs: seq<Harvested>)
    ensures |Starts(hs)| == |hs| && forall i :: 0 <= i < |hs| ==> Starts(hs)[i] == hs[i].start
  {
    if hs != [] {
      StartsAt(hs[..|hs| - 1]);
    }
  }

  /** Everything harvested is right, seen lists exactly the places, and no place twice. */
  ghost predicate Collected(html: string, hs: seq<Harvested>, seen: set<nat>) {
    && (forall h :: h in hs ==> Right(html, h) && h.start in seen)
    && (forall p :: p in seen ==> exists h :: h in hs && h.start == p)
    && (forall i, j :: 0 <= i < j < |hs| ==> hs[i].start != hs[j].start)
  }

  lemma CollectedMore(html: string, hs: seq<Harvested>, seen: set<nat>, h: Harvested)
    requires Collected(html, hs, seen) && Right(html, h) && h.start !in seen
    ensures Collected(html, hs + [h], seen + {h.start})
  {
    hide Right;
    assert forall x :: x in hs + [h] <==> x in hs || x == h;
    assert h in hs + [h];
  }

  /** harvest: finds the inner HTML of an artifact that is new. */
  method Harvest(html: string, start: nat, e: Element) returns (h: Harvested)
    requires start < |html| && ElementAt(html[start..]) == Some(e)
    ensures Right(html, h) && h.start == start
  {
    hide Close, ElementAt;
    var openEnd := start + e.len;
    var inner := "";
    assert html[start..][e.len..] == html[openEnd..];
    if !IsVoid(e) {
      var closeEnd := FindCloseEnd(html, e.tag, openEnd);
      var end := closeEnd - (|e.tag| + 3);
      if end >= openEnd {
        assert html[openEnd..end] == html[openEnd..][..end - openEnd];
        inner := html[openEnd..end];
      }
    }
    h := Harvested(start, e, inner);
  }

  /** An open tag of one of these names, terminated. */
  predicate Found(html: string, tags: seq<string>, p: nat) {
    p < |html| && FirstOpen(html[p..], tags).Some? && OpenEnd(html[p..]).Some?
  }

  lemma {:induction false} FirstOpenSnoc(s: string, tags: seq<string>, tag: string)
    ensures FirstOpen(s, tags + [tag]) == if FirstOpen(s, tags).Some? then FirstOpen(s, tags) else FirstOpen(s, [tag])
  {
    hide OpenAt;
    if tags == [] {
      assert tags + [tag] == [tag];
    } else {
      assert (tags + [tag])[1..] == tags[1..] + [tag];
      FirstOpenSnoc(s, tags[1..], tag);
    }
  }

  lemma {:induction false} FirstOpenPrefix(s: string, tags: seq<string>, t: nat)
    requires t < |tags| && FirstOpen(s, tags[..t]).None? && FirstOpen(s, [tags[t]]).Some?
    ensures FirstOpen(s, tags) == Some(tags[t])
  {
    hide OpenAt;
    if t > 0 {
      assert tags[..t][0] == tags[0] && tags[..t][1..] == tags[1..][..t - 1];
      FirstOpenPrefix(s, tags[1..], t - 1);
    }
  }

  /** A stampable tag that no earlier name claims is an artifact under that name. */
  lemma StampableElement(html: string, p: nat, t: nat, end: nat)
    requires p < |html| && t < |STAMPABLE| && FirstOpen(html[p..], STAMPABLE[..t]).None?
    requires FirstOpen(html[p..], [STAMPABLE[t]]).Some? && OpenEnd(html[p..]) == Some(end - p) && p <= end
    ensures p + |STAMPABLE[t]| + 1 < end <= |html|
    ensures ElementAt(html[p..]) == Some(Element(STAMPABLE[t], end - p, html[p + 1 + |STAMPABLE[t]|..end - 1]))
  {
    hide FirstOpen, OpenAt, OpenEnd, Marked;
    FirstOpenPrefix(html[p..], STAMPABLE, t);
    NameIsShort(html[p..]);
    assert html[p..][|STAMPABLE[t]| + 1..end - p - 1] == html[p + 1 + |STAMPABLE[t]|..end - 1];
  }

  /** The search for one tag name over the whole document. */
  method HarvestTag(html: string, t: nat, hs0: seq<Harvested>, seen0: set<nat>)
    returns (hs: seq<Harvested>, seen: set<nat>)
    requires t < |STAMPABLE| && Collected(html, hs0, seen0)
    requires forall p: nat :: p in seen0 <==> Found(html, STAMPABLE[..t], p)
    ensures Collected(html, hs, seen)
    ensures forall p: nat :: p in seen <==> Found(html, STAMPABLE[..t], p) || Found(html, [STAMPABLE[t]], p)
  {
    hide Collected, Right, FirstOpen, OpenEnd, ElementAt;
    hs, seen := hs0, seen0;
    var tag, idx := STAMPABLE[t], 0;
    while true
      invariant idx <= |html| && Collected(html, hs, seen)
      invariant forall p: nat :: p in seen <==> Found(html, STAMPABLE[..t], p) || (p < idx && Found(html, [tag], p))
      decreases |html| - idx
    {
      var at := NextOpen(html, [tag], idx);
      if at.None? {
        break;
      }
      var start := at.value;
      var end := AttrAwareOpenTagEnd(html, start);
      if end >= 0 && start !in seen {
        StampableElement(html, start, t, end);
        var h := Harvest(html, start, Element(tag, end - start, html[start + 1 + |tag|..end - 1]));
        CollectedMore(html, hs, seen, h);
        hs, seen := hs + [h], seen + {start};
      }
      idx := start + 1;
    }
  }

  lemma FoundMore(html: string, t: nat, p: nat)
    requires t < |STAMPABLE|
    ensures Found(html, STAMPABLE[..t + 1], p) <==> Found(html, STAMPABLE[..t], p) || Found(html, [STAMPABLE[t]], p)
  {
    hide FirstOpen, OpenEnd;
    if p < |html| {
      assert STAMPABLE[..t + 1] == STAMPABLE[..t] + [STAMPABLE[t]];
      FirstOpenSnoc(html[p..], STAMPABLE[..t], STAMPABLE[t]);
    }
  }

  /** harvestStampableTags. */
  method HarvestStampableTags(html: string) returns (hs: seq<Harvested>, seen: set<nat>)
    ensures Collected(html, hs, seen)
    ensures forall p: nat :: p in seen <==> Found(html, STAMPABLE, p)
  {
    hs, seen := [], {};
    var t := 0;
    hide Right, OpenEnd;
    while t < |STAMPABLE|
      invariant 0 <= t <= |STAMPABLE| && Collected(html, hs, seen)
      invariant forall p: nat :: p in seen <==> Found(html, STAMPABLE[..t], p)
    {
      hs, seen := HarvestTag(html, t, hs, seen);
      forall p: nat ensures p in seen <==> Found(html, STAMPABLE[..t + 1], p) {
        FoundMore(html, t, p);
      }
      t := t + 1;
    }
    assert STAMPABLE[..t] == STAMPABLE;
  }

  /** A marked tag that no stampable name claims is an artifact under its own name. */
  lemma MarkedElement(html: string, p: nat, end: nat, tag: string)
    requires p < |html| && ProbeAt(html[p..]) > 0 && tag == LowerAll(html[p..][1..ProbeAt(html[p..])])
    requires !Stampable(html[p..]) && OpenEnd(html[p..]) == Some(end - p) && p <= end
    ensures p + |tag| + 1 < end <= |html|
    ensures ElementAt(html[p..]) ==
      if Marked(html[p + 1 + |tag|..end - 1]) then Some(Element(tag, end - p, html[p + 1 + |tag|..end - 1])) else None
  {
    hide OpenEnd, Marked, ProbeAt;
    NameIsShort(html[p..]);
    assert html[p..][|tag| + 1..end - p - 1] == html[p + 1 + |tag|..end - 1];
  }

  /** An artifact is a terminated stampable tag or a terminated tag with a name. */
  lemma ArtifactKinds(html: string, p: nat)
    ensures Found(html, STAMPABLE, p) ==> IsArtifact(html, p)
    ensures IsArtifact(html, p) ==> OpenEnd(html[p..]).Some? && (Stampable(html[p..]) || ProbeAt(html[p..]) > 0)
  {
    hide OpenEnd, Marked, ProbeAt;
  }

  method NextProbe(html: string, from: nat) returns (at: Option<nat>)
    requires from <= |html|
    ensures at.Some? ==> from <= at.value < |html| && ProbeAt(html[at.value..]) > 0
    ensures forall p :: from <= p < (if at.Some? then at.value else |html|) ==> ProbeAt(html[p..]) == 0
  {
    var p := from;
    while p < |html|
      invariant from <= p <= |html|
      invariant forall q :: from <= q < p ==> ProbeAt(html[q..]) == 0
    {
      if ProbeAt(html[p..]) > 0 {
        return Some(p);
      }
      p := p + 1;
    }
    return None;
  }

  /** One probe: a new place is harvested exactly when it is an artifact. */
  method HarvestProbe(html: string, start: nat, hs0: seq<Harvested>, seen0: set<nat>)
    returns (hs: seq<Harvested>, seen: set<nat>)
    requires Collected(html, hs0, seen0) && start < |html| && ProbeAt(html[start..]) > 0
    requires Found(html, STAMPABLE, start) ==> start in seen0
    requires start in seen0 ==> IsArtifact(html, start)
    ensures Collected(html, hs, seen)
    ensures seen == if IsArtifact(html, start) then seen0 + {start} else seen0
  {
    hide Collected, Right, OpenEnd, Marked, ProbeAt, ElementAt, Close;
    hs, seen := hs0, seen0;
    ArtifactKinds(html, start);
    var tag := LowerAll(html[start..][1..ProbeAt(html[start..])]);
    var end := AttrAwareOpenTagEnd(html, start);
    if end >= 0 && start !in seen {
      MarkedElement(html, start, end, tag);
      var attrs := html[start + 1 + |tag|..end - 1];
      if Marked(attrs) {
        var h := Harvest(html, start, Element(tag, end - start, attrs));
        CollectedMore(html, hs, seen, h);
        hs, seen := hs + [h], seen + {start};
      }
    }
  }

  /** harvestOptInMarkers: with the stampable tags seen before, everything seen after is exactly the artifacts. */
  method HarvestOptInMarkers(html: string, hs0: seq<Harvested>, seen0: set<nat>)
    returns (hs: seq<Harvested>, seen: set<nat>)
    requires Collected(html, hs0, seen0) && forall p: nat :: p in seen0 <==> Found(html, STAMPABLE, p)
    ensures Collected(html, hs, seen)
    ensures forall p: nat :: p in seen <==> IsArtifact(html, p)
  {
    hide Collected, Found, IsArtifact, ProbeAt;
    hs, seen := hs0, seen0;
    var idx := 0;
    forall p: nat ensures Found(html, STAMPABLE, p) ==> IsArtifact(html, p) {
      ArtifactKinds(html, p);
    }
    while true
      invariant idx <= |html| && Collected(html, hs, seen)
      invariant forall p: nat :: p in seen <==> Found(html, STAMPABLE, p) || (p < idx && IsArtifact(html, p))
      decreases |html| - idx
    {
      var at := NextProbe(html, idx);
      NotProbed(html, idx, if at.Some? then at.value else |html|);
      if at.None? {
        break;
      }
      hs, seen := HarvestProbe(html, at.value, hs, seen);
      idx := at.value + 1;
    }
  }

  lemma NotProbed(html: string, from: nat, to: nat)
    requires to <= |html| && forall p :: from <= p < to ==> ProbeAt(html[p..]) == 0
    ensures forall p: nat :: from <= p < to && IsArtifact(html, p) ==> Found(html, STAMPABLE, p)
    ensures forall p: nat :: p >= |html| ==> !IsArtifact(html, p)
  {
    hide ProbeAt, ElementAt, OpenEnd, FirstOpen;
    forall p: nat | from <= p < to && IsArtifact(html, p) ensures Found(html, STAMPABLE, p) {
      ArtifactKinds(html, p);
    }
  }

  // ---------------------------------------------------------------- stamping

  predicate ByStart(hs: seq<Harvested>) {
    forall i, j :: 0 <= i < j < |hs| ==> hs[j].start < hs[i].start
  }

  /** One step of the sort by descending offset. */
  method InsertByStart(hs: seq<Harvested>, h: Harvested) returns (r: seq<Harvested>)
    requires ByStart(hs) && forall x :: x in hs ==> x.start != h.start
    ensures ByStart(r) && forall x :: x in r <==> x in hs || x == h
  {
    var k := 0;
    while k < |hs| && hs[k].start > h.start
      invariant 0 <= k <= |hs| && forall j :: 0 <= j < k ==> hs[j].start > h.start
    {
      k := k + 1;
    }
    r := hs[..k] + [h] + hs[k..];
    InsertedByStart(hs, h, k, r);
  }

  lemma InsertedByStart(hs: seq<Harvested>, h: Harvested, k: nat, r: seq<Harvested>)
    requires ByStart(hs) && k <= |hs| && r == hs[..k] + [h] + hs[k..]
    requires (forall j :: 0 <= j < k ==> hs[j].start > h.start)
    requires (k < |hs| ==> hs[k].start < h.start || hs[k].start == h.start)
    requires forall x :: x in hs ==> x.start != h.start
    ensures ByStart(r) && forall x :: x in r <==> x in hs || x == h
  {
    assert forall j :: k <= j < |hs| ==> hs[j].start < h.start by {
      assert k < |hs| ==> hs[k] in hs;
    }
    assert hs == hs[..k] + hs[k..];
  }

  method SortByStart(hs: seq<Harvested>) returns (r: seq<Harvested>)
    requires forall i, j :: 0 <= i < j < |hs| ==> hs[i].start != hs[j].start
    ensures ByStart(r) && forall x :: x in r <==> x in hs
  {
    r := [];
    var i := 0;
    while i < |hs|
      invariant 0 <= i <= |hs| && ByStart(r) && forall x :: x in r <==> x in hs[..i]
    {
      assert hs[..i + 1] == hs[..i] + [hs[i]];
      r := InsertByStart(r, hs[i]);
      i := i + 1;
    }
    assert hs[..i] == hs;
  }

  lemma {:induction false} AllStarts(html: string, hs: seq<Harvested>, seen: set<nat>, sorted: seq<Harvested>)
    requires Collected(html, hs, seen) && (forall p: nat :: p in seen <==> IsArtifact(html, p))
    requires ByStart(sorted) && forall x :: x in sorted <==> x in hs
    ensures AllFrom(html, 0, Starts(sorted))
    ensures forall i :: 0 <= i < |sorted| ==> Right(html, sorted[i])
  {
    hide Right, IsArtifact;
    StartsAt(sorted);
    forall p: nat ensures p in Starts(sorted) <==> p in seen {
      if p in Starts(sorted) {
        var i :| 0 <= i < |sorted| && Starts(sorted)[i] == p;
        assert sorted[i] in hs;
      }
      if p in seen {
        var h :| h in hs && h.start == p;
        var i :| 0 <= i < |sorted| && sorted[i] == h;
        assert Starts(sorted)[i] == p;
      }
    }
    forall i | 0 <= i < |sorted| ensures Right(html, sorted[i]) {
      assert sorted[i] in hs;
    }
  }

  /** The new open tag of a harvested element. */
  method OpenOf(hash: Hash, html: string, h: Harvested) returns (aid: string, open: string)
    requires Right(html, h)
    ensures aid == AidOf(hash, html[h.start..], h.e) && open == StampedOpen(hash, html[h.start..], h.e)
  {
    hide ElementAt, Inner, IsVoid, SelfCloses;
    var cleanedAttrs := Strip(h.e.attrs, true);
    var cleanedInner := Strip(h.inner, false);
    aid := hash(h.e.tag, cleanedInner, cleanedAttrs);
    var selfClose := if SelfCloses(h.e.attrs) then "/" else "";
    if IsVoid(h.e) {
      open := "<" + h.e.tag + cleanedAttrs + Stamp(aid) + selfClose + ">";
    } else {
      open := "<" + h.e.tag + cleanedAttrs + Stamp(aid) + "" + ">";
    }
  }

  const HEAD_LEN := 80

  function Excerpt(inner: string): string {
    if |inner| <= HEAD_LEN then inner else inner[..HEAD_LEN]
  }

  /** An entry of the artifact index. */
  datatype Entry = Entry(tag: string, aid: string, head: string)

  /** What the index says of the artifact at p: its tag, its identity and the beginning of its inner HTML. */
  function EntryAt(hash: Hash, html: string, p: nat): Entry
    requires IsArtifact(html, p)
  {
    var s, e := html[p..], ElementAt(html[p..]).value;
    Entry(e.tag, AidOf(hash, s, e), Excerpt(Inner(s, e)))
  }

  /** The index over the harvested elements, in harvest order. */
  method IndexAll(hash: Hash, html: string, hs: seq<Harvested>) returns (aids: seq<Entry>)
    requires forall i :: 0 <= i < |hs| ==> Right(html, hs[i])
    ensures |aids| == |hs|
    ensures forall i :: 0 <= i < |hs| ==> IsArtifact(html, hs[i].start) && aids[i] == EntryAt(hash, html, hs[i].start)
  {
    hide Right, IsArtifact, EntryAt, AidOf, StampedOpen, Excerpt;
    aids := [];
    var i := 0;
    while i < |hs|
      invariant 0 <= i <= |hs| && |aids| == i
      invariant forall j :: 0 <= j < i ==> IsArtifact(html, hs[j].start) && aids[j] == EntryAt(hash, html, hs[j].start)
    {
      var aid, open := OpenOf(hash, html, hs[i]);
      EntryOf(hash, html, hs[i]);
      aids := aids + [Entry(hs[i].e.tag, aid, Excerpt(hs[i].inner))];
      i := i + 1;
    }
  }

  lemma EntryOf(hash: Hash, html: string, h: Harvested)
    requires Right(html, h)
    ensures IsArtifact(html, h.start)
    ensures EntryAt(hash, html, h.start)
      == Entry(h.e.tag, AidOf(hash, html[h.start..], h.e), Excerpt(h.inner))
  {
    hide ElementAt, Inner, AidOf, Excerpt;
  }

  /** The places of the harvested elements: every artifact's, each once. */
  lemma PlacesOnce(html: string, hs: seq<Harvested>, seen: set<nat>)
    requires Collected(html, hs, seen) && forall p: nat :: p in seen <==> IsArtifact(html, p)
    ensures |Starts(hs)| == |hs| && forall i :: 0 <= i < |hs| ==> Starts(hs)[i] == hs[i].start
    ensures EachOnce(html, Starts(hs))
  {
    hide Right, IsArtifact;
    StartsAt(hs);
    forall p: nat ensures p in Starts(hs) <==> IsArtifact(html, p) {
      if p in Starts(hs) {
        var i :| 0 <= i < |hs| && Starts(hs)[i] == p;
        assert hs[i] in hs;
      }
      if p in seen {
        var h :| h in hs && h.start == p;
        var i :| 0 <= i < |hs| && hs[i] == h;
        assert Starts(hs)[i] == p;
      }
    }
  }

  ghost predicate EachOnce(html: string, places: seq<nat>) {
    && (forall p: nat :: p in places <==> IsArtifact(html, p))
    && (forall i, j :: 0 <= i < j < |places| ==> places[i] != places[j])
  }

  /** The splicing loop. */
  method SpliceOpens(hash: Hash, html: string, hs: seq<Harvested>) returns (out: Option<string>)
    requires forall i :: 0 <= i < |hs| ==> Right(html, hs[i])
    requires forall p :: p in Starts(hs) ==> IsArtifact(html, p)
    ensures out == SpliceAll(html, Patches(hash, html, Starts(hs)))
  {
    hide IsArtifact, Patches, PatchAt, EndAt, StampedOpen, AidOf, ElementAt, Right, SpliceAll, Starts;
    StartsAt(hs);
    ghost var ps := Patches(hash, html, Starts(hs));
    out := Some(html);
    var k := 0;
    NoSplices(html, ps);
    while k < |hs|
      invariant 0 <= k <= |hs| && out == SpliceAll(html, ps[..k])
    {
      PatchOf(hash, html, hs, k);
      SpliceMore(html, ps, k);
      if out.Some? {
        var aid, open := OpenOf(hash, html, hs[k]);
        var end := hs[k].start + hs[k].e.len;
        out := if end <= |out.value| then Some(out.value[..hs[k].start] + open + out.value[end..]) else None;
      }
      k := k + 1;
    }
    assert ps[..k] == ps;
  }

  lemma NoSplices(html: string, ps: seq<Patch>)
    ensures SpliceAll(html, ps[..0]) == Some(html)
  {
  }

  lemma SpliceMore(html: string, ps: seq<Patch>, k: nat)
    requires k < |ps|
    ensures var out, p := SpliceAll(html, ps[..k]), ps[k];
      SpliceAll(html, ps[..k + 1]) ==
      if out.None? || !(p.start <= p.end <= |out.value|) then None
      else Some(out.value[..p.start] + p.open + out.value[p.end..])
  {
    assert ps[..k + 1][..k] == ps[..k];
  }

  lemma PatchOf(hash: Hash, html: string, hs: seq<Harvested>, k: nat)
    requires k < |hs| && Right(html, hs[k])
    requires forall p :: p in Starts(hs) ==> IsArtifact(html, p)
    ensures |Patches(hash, html, Starts(hs))| == |hs|
    ensures hs[k].e.tag != "" && hs[k].e.len <= |html[hs[k].start..]|
    ensures Patches(hash, html, Starts(hs))[k]
         == Patch(hs[k].start, hs[k].start + hs[k].e.len, StampedOpen(hash, html[hs[k].start..], hs[k].e))
  {
    hide StampedOpen, Starts, Patches, Inner, TagAt, OpenEnd;
    StartsAt(hs);
    PatchesAre(hash, html, Starts(hs));
  }

  /** StampAids: the document spliced, and the index of its artifacts: places are all their places, each once,
      in harvest order. Each entry, and each open tag put in, carries the identity of what the artifact reads. out
      is None where the splices by stale offsets leave the document. When the artifacts' open tags lie apart the
      result is the rewrite: the document with these replacements and nothing else changed. */
  method StampAids(hash: Hash, html: string)
    returns (out: Option<string>, aids: seq<Entry>, ghost places: seq<nat>, ghost starts: seq<nat>)
    ensures AllFrom(html, 0, starts) && (forall p :: p in starts ==> IsArtifact(html, p))
    ensures out == SpliceAll(html, Patches(hash, html, starts))
    ensures |Patches(hash, html, starts)| == |starts|
    ensures forall i :: 0 <= i < |starts| ==> PatchReads(hash, html, starts[i], Patches(hash, html, starts)[i])
    ensures Apart(html) ==> out == Some(Rewrite(hash, html))
    ensures Apart(html) ==>
      var ps := Patches(hash, html, starts);
      Laid(html, ps) && out == Some(Merge(html, 0, ps))
    ensures EachOnce(html, places) && |aids| == |places|
    ensures forall i :: 0 <= i < |places| ==> IsArtifact(html, places[i]) && aids[i] == EntryAt(hash, html, places[i])
    ensures forall i :: 0 <= i < |places| ==>
      IndexReads(hash, html, places[i], aids[i].tag, aids[i].aid, aids[i].head)
  {
    hide Right, IsArtifact, Patches, EntryAt, Rewrite, Apart, SpliceAll, AllFrom, EachOnce, Starts, IndexReads,
      PatchReads, Laid, Merge;
    var harvested, seen := HarvestStampableTags(html);
    harvested, seen := HarvestOptInMarkers(html, harvested, seen);
    assert forall i :: 0 <= i < |harvested| ==> harvested[i] in harvested;
    aids := IndexAll(hash, html, harvested);
    PlacesOnce(html, harvested, seen);
    places := Starts(harvested);
    var sorted := SortByStart(harvested);
    AllStarts(html, harvested, seen, sorted);
    starts := Starts(sorted);
    AllAreArtifacts(html, starts);
    out := SpliceOpens(hash, html, sorted);
    PatchesRead(hash, html, starts);
    IndexedReads(hash, html, places);
    if Apart(html) {
      SplicingIsRewriting(hash, html, starts);
    }
  }

  lemma IndexedReads(hash: Hash, html: string, places: seq<nat>)
    requires forall i :: 0 <= i < |places| ==> IsArtifact(html, places[i])
    ensures forall i :: 0 <= i < |places| ==>
      var entry := EntryAt(hash, html, places[i]);
      IndexReads(hash, html, places[i], entry.tag, entry.aid, entry.head)
  {
    hide IsArtifact, ElementAt, AidOf, Inner, IndexReads;
    forall i | 0 <= i < |places|
      ensures var entry := EntryAt(hash, html, places[i]);
        IndexReads(hash, html, places[i], entry.tag, entry.aid, entry.head)
    {
      IndexRead(hash, html, places[i]);
    }
  }

  lemma AllAreArtifacts(html: string, starts: seq<nat>)
    requires AllFrom(html, 0, starts)
    ensures forall p :: p in starts ==> IsArtifact(html, p)
  {
    hide IsArtifact;
  }
}
