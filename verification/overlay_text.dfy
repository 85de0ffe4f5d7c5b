/** The loops of the overlay's text search: building the index, locating an offset, finding and scoring the
    occurrences. */
module OverlayText {
  import opened CommentTypes
  import opened TextIndex
  import opened TextSearch

  datatype Node = Node(start: nat, end: nat)

  datatype View = View(nodes: seq<Node>, total: string, norm: string, normToRaw: seq<nat>)

  /** A position: the index of a text node and an offset in it. */
  datatype Place = Place(node: nat, offset: nat)

  datatype Range = Range(start: Place, end: Place)

  function Flat(texts: seq<string>): string {
    if texts == [] then "" else Flat(texts[..|texts| - 1]) + texts[|texts| - 1]
  }

  /** The nodes lie side by side from 0 to size. */
  predicate Tiles(nodes: seq<Node>, size: nat) {
    && (nodes == [] ==> size == 0)
    && (forall k :: 0 <= k < |nodes| ==> nodes[k].start <= nodes[k].end <= size)
    && (forall j, k :: 0 <= j < k < |nodes| ==> nodes[j].end <= nodes[k].start)
    && (forall k :: 0 <= k < |nodes| - 1 ==> nodes[k].end == nodes[k + 1].start)
    && (nodes != [] ==> nodes[0].start == 0 && nodes[|nodes| - 1].end == size)
  }

  /** A usable index: nodes that tile the flat text, its projection and the map back. */
  predicate Indexed(v: View) {
    Tiles(v.nodes, |v.total|) && v.norm == Norm(v.total) && v.normToRaw == NormToRaw(v.total)
  }

  /** The nodes hold these texts. */
  predicate Holds(texts: seq<string>, nodes: seq<Node>, total: string)
    requires Tiles(nodes, |total|)
  {
    total == Flat(texts) && |nodes| == |texts| &&
    forall k :: 0 <= k < |texts| ==> total[nodes[k].start..nodes[k].end] == texts[k]
  }

  /** The inner loop: one node's characters join the projection. */
  method AddText(v: string, total: string, norm0: string, raw0: seq<nat>) returns (norm: string, raw: seq<nat>)
    requires norm0 == Norm(total) && raw0 == Origins(total)
    ensures norm == Norm(total + v) && raw == Origins(total + v)
  {
    hide Norm, Origins;
    norm, raw := norm0, raw0;
    var prevWasSpace := norm != "" && norm[|norm| - 1] == ' ';
    var i := 0;
    assert total + v[..0] == total;
    while i < |v|
      invariant 0 <= i <= |v| && norm == Norm(total + v[..i]) && raw == Origins(total + v[..i])
      invariant prevWasSpace == (norm != "" && norm[|norm| - 1] == ' ')
    {
      var c := v[i];
      NormSnoc(total + v[..i], c);
      assert (total + v[..i]) + [c] == total + v[..i + 1];
      if IsWs(c) {
        if !prevWasSpace && |norm| > 0 {
          norm, raw, prevWasSpace := norm + " ", raw + [|total| + i], true;
        }
      } else {
        norm, raw, prevWasSpace := norm + [c], raw + [|total| + i], false;
      }
      i := i + 1;
    }
    assert v[..i] == v;
  }

  lemma PrefixSlice(total: string, more: string, i: nat, j: nat)
    requires i <= j <= |total|
    ensures (total + more)[i..j] == total[i..j]
  {
  }

  lemma TilesAdded(nodes: seq<Node>, size: nat, n: nat)
    requires Tiles(nodes, size)
    ensures Tiles(nodes + [Node(size, size + n)], size + n)
  {
    var all := nodes + [Node(size, size + n)];
    forall k | 0 <= k < |all| - 1 ensures all[k].end == all[k + 1].start {
      assert k < |nodes| - 1 ==> nodes[k].end == nodes[k + 1].start;
    }
  }

  lemma HoldsAdded(texts: seq<string>, nodes: seq<Node>, total: string, text: string, last: Node)
    requires Tiles(nodes, |total|) && Holds(texts, nodes, total)
    requires last == Node(|total|, |total| + |text|) && Tiles(nodes + [last], |total + text|)
    ensures Holds(texts + [text], nodes + [last], total + text)
  {
    assert (texts + [text])[..|texts|] == texts;
    assert (total + text)[|total|..|total| + |text|] == text;
    forall k | 0 <= k < |texts| ensures (total + text)[nodes[k].start..nodes[k].end] == texts[k] {
      PrefixSlice(total, text, nodes[k].start, nodes[k].end);
    }
  }

  /** collectTextNodes over the accepted text nodes, in document order. */
  method CollectTextNodes(texts: seq<string>) returns (v: View)
    ensures Indexed(v) && Holds(texts, v.nodes, v.total)
  {
    var nodes: seq<Node>, total, norm := [], "", "";
    var raw: seq<nat> := [];
    var k := 0;
    assert texts[..0] == [];
    while k < |texts|
      invariant 0 <= k <= |texts| && Tiles(nodes, |total|) && Holds(texts[..k], nodes, total)
      invariant norm == Norm(total) && raw == Origins(total)
    {
      TilesAdded(nodes, |total|, |texts[k]|);
      HoldsAdded(texts[..k], nodes, total, texts[k], Node(|total|, |total| + |texts[k]|));
      assert texts[..k + 1] == texts[..k] + [texts[k]];
      nodes := nodes + [Node(|total|, |total| + |texts[k]|)];
      norm, raw := AddText(texts[k], total, norm, raw);
      total := total + texts[k];
      k := k + 1;
    }
    assert texts[..k] == texts;
    v := View(nodes, total, norm, raw + [|total|]);
  }

  lemma TileMeets(nodes: seq<Node>, size: nat, k: nat)
    requires Tiles(nodes, size) && 0 < k < |nodes|
    ensures nodes[k - 1].end == nodes[k].start
  {
    assert nodes[k - 1].end == nodes[k - 1 + 1].start;
  }

  /** locateAt: a binary search that succeeds on every offset of the text, with a node that holds it. */
  method LocateAt(nodes: seq<Node>, rawOffset: int, ghost size: nat) returns (place: Option<Place>)
    requires Tiles(nodes, size)
    ensures place.Some? <==> nodes != [] && 0 <= rawOffset <= size
    ensures place.Some? ==>
      var p := place.value;
      p.node < |nodes| && nodes[p.node].start + p.offset == rawOffset <= nodes[p.node].end
  {
    var lo, hi := 0, |nodes| - 1;
    while lo <= hi
      invariant 0 <= lo <= hi + 1 <= |nodes|
      invariant forall k :: 0 <= k < lo ==> nodes[k].end < rawOffset
      invariant forall k :: hi < k < |nodes| ==> rawOffset < nodes[k].start
    {
      var mid := (lo + hi) / 2;
      var n := nodes[mid];
      if rawOffset < n.start {
        hi := mid - 1;
      } else if rawOffset > n.end {
        lo := mid + 1;
      } else {
        return Some(Place(mid, rawOffset - n.start));
      }
    }
    if 0 < lo < |nodes| {
      TileMeets(nodes, size, lo);
    }
    return None;
  }

  method CommonPrefixLen(a: string, b: string) returns (i: nat)
    ensures i == PrefixLen(a, b)
  {
    i := 0;
    while i < |a| && i < |b| && a[i] == b[i]
      invariant i <= |a| && i <= |b| && PrefixLen(a, b) == i + PrefixLen(a[i..], b[i..])
    {
      assert a[i..][1..] == a[i + 1..] && b[i..][1..] == b[i + 1..];
      i := i + 1;
    }
  }

  method CommonSuffixLen(a: string, b: string) returns (i: nat)
    ensures i == SuffixLen(a, b)
  {
    i := 0;
    assert a[..|a|] == a && b[..|b|] == b;
    while i < |a| && i < |b| && a[|a| - 1 - i] == b[|b| - 1 - i]
      invariant i <= |a| && i <= |b| && SuffixLen(a, b) == i + SuffixLen(a[..|a| - i], b[..|b| - i])
    {
      assert a[..|a| - i][..|a| - i - 1] == a[..|a| - i - 1] && b[..|b| - i][..|b| - i - 1] == b[..|b| - i - 1];
      i := i + 1;
    }
  }

  /** indexOf, -1 when there is none. */
  method IndexOf(norm: string, needle: string, from: nat) returns (i: int)
    ensures if First(norm, needle, from).None? then i == -1 else i == First(norm, needle, from).value
  {
    var p := from;
    while p <= |norm|
      invariant p >= from && First(norm, needle, from) == First(norm, needle, p)
      decreases |norm| + 1 - p
    {
      if OccursAt(norm, needle, p) {
        return p;
      }
      p := p + 1;
    }
    return -1;
  }

  lemma Regroup(hits: seq<nat>, i: nat, rest: seq<nat>)
    ensures hits + ([i] + rest) == (hits + [i]) + rest
  {
  }

  /** The hit loop: it stops once it has max hits, one more than 64. */
  method FindHits(norm: string, needle: string, max: nat) returns (hits: seq<nat>)
    requires max > 0
    ensures hits == Hits(norm, needle, 0, max)
  {
    hits := [];
    var from: nat := 0;
    while true
      invariant |hits| < max
      invariant hits + Hits(norm, needle, from, max - |hits|) == Hits(norm, needle, 0, max)
      decreases max - |hits|
    {
      var i := IndexOf(norm, needle, from);
      HitsStep(norm, needle, from, max - |hits|);
      if i == -1 {
        assert hits + [] == hits;
        return;
      }
      ghost var rest := Hits(norm, needle, i + if |needle| > 1 then |needle| else 1, max - |hits| - 1);
      Regroup(hits, i, rest);
      hits := hits + [i];
      if |hits| > max - 1 {
        assert hits + [] == hits;
        return;
      }
      from := i + if |needle| > 1 then |needle| else 1;
    }
  }

  method ScoreHit(norm: string, needle: string, h: nat, bTail: string, aHead: string) returns (score: nat)
    requires OccursAt(norm, needle, h)
    ensures score == Score(norm, needle, h, bTail, aHead)
  {
    var end := h + |needle|;
    var beforeSlice := norm[if h > CTX_MATCH_LEN then h - CTX_MATCH_LEN else 0..h];
    var afterSlice := norm[end..if end + CTX_MATCH_LEN < |norm| then end + CTX_MATCH_LEN else |norm|];
    var bScore := CommonSuffixLen(beforeSlice, bTail);
    var aScore := CommonPrefixLen(afterSlice, aHead);
    score := (if bScore >= MIN_CTX_MATCH then bScore else 0) + if aScore >= MIN_CTX_MATCH then aScore else 0;
  }

  /** The scoring loop keeps the first hit with the best score. */
  method BestHit(norm: string, needle: string, hits: seq<nat>, bTail: string, aHead: string)
    returns (chosen: Option<nat>)
    requires AllOccur(norm, needle, hits)
    ensures ChoosesByContext(norm, needle, hits, bTail, aHead, chosen)
  {
    chosen := None;
    var bestScore, k := 0, 0;
    ghost var best := 0;
    while k < |hits|
      invariant 0 <= k <= |hits|
      invariant forall j :: 0 <= j < k ==> Score(norm, needle, hits[j], bTail, aHead) <= bestScore
      invariant chosen.None? <==> bestScore == 0
      invariant chosen.Some? ==> best < k && chosen == Some(hits[best])
      invariant chosen.Some? ==> Score(norm, needle, hits[best], bTail, aHead) == bestScore
      invariant chosen.Some? ==> forall j :: 0 <= j < best ==> Score(norm, needle, hits[j], bTail, aHead) < bestScore
    {
      var score := ScoreHit(norm, needle, hits[k], bTail, aHead);
      if score > bestScore {
        bestScore, chosen, best := score, Some(hits[k]), k;
      }
      k := k + 1;
    }
    assert chosen.Some? ==> Wins(norm, needle, hits, bTail, aHead, best);
  }

  /** The decision of findTextRange. */
  method Choose(norm: string, anchor: SavedText) returns (chosen: Option<nat>)
    ensures Chooses(norm, anchor, chosen)
  {
    if |anchor.text| < 2 || norm == "" {
      return None;
    }
    var needle := NormalizeNeedle(anchor.text);
    if |needle| < 2 {
      return None;
    }
    var beforeN, afterN := NormalizeContext(anchor.contextBefore), NormalizeContext(anchor.contextAfter);
    var hits := FindHits(norm, needle, MAX_HITS);
    if hits == [] {
      return None;
    }
    var hasContext := |beforeN| > 0 || |afterN| > 0;
    if |hits| == 1 && !hasContext {
      return Some(hits[0]);
    }
    if !hasContext {
      return None;
    }
    HitsAllOccur(norm, needle);
    chosen := BestHit(norm, needle, hits, Tail(beforeN), Head(afterN));
  }

  /** The raw offset of a place. */
  function RawAt(nodes: seq<Node>, p: Place): nat
    requires p.node < |nodes|
  {
    nodes[p.node].start + p.offset
  }

  /** The stretch of text a trimmed occurrence stands for. */
  lemma HitCollapses(t: string, needle: string, i: nat)
    requires needle != "" && OccursAt(Norm(t), needle, i)
    ensures |NormToRaw(t)| == |Norm(t)| + 1 && NormToRaw(t)[i] < NormToRaw(t)[i + |needle|] <= |t|
    ensures Collapse(t[NormToRaw(t)[i]..NormToRaw(t)[i + |needle|]], false) == needle
  {
    hide Norm, NormToRaw, Collapse;
    OriginsOrdered(t, i, i + |needle|);
    PartCollapses(t, i, i + |needle|);
  }

  /** An occurrence of a needle that neither starts nor ends with a space starts and ends in text. */
  lemma HitIsTight(t: string, needle: string, i: nat)
    requires needle != "" && needle[0] != ' ' && needle[|needle| - 1] != ' ' && OccursAt(Norm(t), needle, i)
    ensures |NormToRaw(t)| == |Norm(t)| + 1 && NormToRaw(t)[i] < NormToRaw(t)[i + |needle|] <= |t|
    ensures !IsWs(t[NormToRaw(t)[i]]) && !IsWs(t[NormToRaw(t)[i + |needle|] - 1])
  {
    var last := i + |needle| - 1;
    OriginsOrdered(t, i, i + |needle|);
    assert needle[0] == Norm(t)[i] && needle[|needle| - 1] == Norm(t)[last];
    TextIsTight(t, i);
    TextIsTight(t, last);
  }

  lemma TextIsTight(t: string, k: nat)
    requires k < |Norm(t)| && Norm(t)[k] != ' '
    ensures |NormToRaw(t)| == |Norm(t)| + 1 && NormToRaw(t)[k + 1] == NormToRaw(t)[k] + 1 <= |t|
    ensures !IsWs(t[NormToRaw(t)[k]])
  {
    BuiltAlways(t);
    assert Stretch(t, Norm(t)[k], NormToRaw(t)[k], NormToRaw(t)[k + 1]);
  }

  /** rangeFromNormalizedOffsets: both ends are always located. */
  method RangeFromNormalizedOffsets(v: View, normIdx: nat, normLen: nat) returns (range: Option<Range>)
    requires Indexed(v) && normIdx + normLen < |v.normToRaw|
    requires v.normToRaw[normIdx] < v.normToRaw[normIdx + normLen] <= |v.total|
    ensures range.Some? && Spans(v, v.normToRaw[normIdx], v.normToRaw[normIdx + normLen], range.value)
  {
    var rawStart, rawEnd := v.normToRaw[normIdx], v.normToRaw[normIdx + normLen];
    var startLoc := LocateAt(v.nodes, rawStart, |v.total|);
    var endLoc := LocateAt(v.nodes, rawEnd, |v.total|);
    if startLoc.None? || endLoc.None? {
      return None;
    }
    return Some(Range(startLoc.value, endLoc.value));
  }

  /** The range's ends are places in text nodes at these offsets of the flat text. */
  predicate Spans(v: View, lo: nat, hi: nat, r: Range) {
    && r.start.node < |v.nodes| && RawAt(v.nodes, r.start) == lo <= v.nodes[r.start.node].end
    && r.end.node < |v.nodes| && RawAt(v.nodes, r.end) == hi <= v.nodes[r.end.node].end
  }

  /** The range covers text that collapses exactly to the needle, without white space at its ends. */
  predicate Covers(v: View, needle: string, r: Range) {
    exists lo: nat, hi: nat :: lo < hi <= |v.total| && Spans(v, lo, hi, r)
      && Collapse(v.total[lo..hi], false) == needle && !IsWs(v.total[lo]) && !IsWs(v.total[hi - 1])
  }

  /** The stretch of the flat text that stands for the accepted occurrence. */
  lemma ChosenStretch(v: View, anchor: SavedText, chosen: nat)
    requires Indexed(v) && Chooses(v.norm, anchor, Some(chosen))
    ensures chosen + |NormalizeNeedle(anchor.text)| < |v.normToRaw|
    ensures var lo, hi := v.normToRaw[chosen], v.normToRaw[chosen + |NormalizeNeedle(anchor.text)|];
      (lo < hi <= |v.total| && Collapse(v.total[lo..hi], false) == NormalizeNeedle(anchor.text)
       && !IsWs(v.total[lo]) && !IsWs(v.total[hi - 1]))
  {
    hide Chooses, Collapse, NormalizeNeedle, Norm, NormToRaw;
    var needle := NormalizeNeedle(anchor.text);
    ChosenOccurs(v.norm, anchor, chosen);
    NeedleTrimmed(anchor.text);
    HitCollapses(v.total, needle, chosen);
    HitIsTight(v.total, needle, chosen);
  }

  /** findTextRange: whenever the rule accepts an occurrence there is a range, and it covers the needle's text. */
  method FindTextRange(v: View, anchor: SavedText) returns (range: Option<Range>, ghost chosen: Option<nat>)
    requires Indexed(v)
    ensures Chooses(v.norm, anchor, chosen) && (range.Some? <==> chosen.Some?)
    ensures range.Some? ==> Covers(v, NormalizeNeedle(anchor.text), range.value)
    ensures range.Some? ==>
      var end := chosen.value + |NormalizeNeedle(anchor.text)|;
      end < |v.normToRaw| && v.normToRaw[chosen.value] <= |v.total| && v.normToRaw[end] <= |v.total|
      && Spans(v, v.normToRaw[chosen.value], v.normToRaw[end], range.value)
  {
    var found := Choose(v.norm, anchor);
    chosen := found;
    if found.None? {
      return None, chosen;
    }
    ChosenStretch(v, anchor, found.value);
    range := RangeFromNormalizedOffsets(v, found.value, |NormalizeNeedle(anchor.text)|);
  }
}
