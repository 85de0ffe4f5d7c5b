/** Anchoring a saved selection: which occurrence of its text is chosen, where that lies in the document, and
    that a selection is found again in its own document. */
module TextSearch {
  import opened CommentTypes
  import opened TextIndex

  const MAX_HITS := 65
  const CTX_MATCH_LEN := 60
  const MIN_CTX_MATCH := 4

  datatype SavedText = SavedText(text: string, contextBefore: string, contextAfter: string)

  // ---------------------------------------------------------------- normalising what was saved

  function TrimStart(s: string): string {
    if s != "" && IsJsWs(s[0]) then TrimStart(s[1..]) else s
  }

  function TrimEnd(s: string): string {
    if s != "" && IsJsWs(s[|s| - 1]) then TrimEnd(s[..|s| - 1]) else s
  }

  function NormalizeContext(s: string): string {
    Collapse(s, true)
  }

  function NormalizeNeedle(s: string): string {
    TrimEnd(TrimStart(Collapse(s, true)))
  }

  /** A needle neither starts nor ends with white space. */
  predicate Trimmed(s: string) {
    s != "" ==> !IsJsWs(s[0]) && !IsJsWs(s[|s| - 1])
  }

  lemma {:induction false} TrimEndKeepsStart(s: string)
    requires s != "" && !IsJsWs(s[0])
    ensures TrimEnd(s) != "" && !IsJsWs(TrimEnd(s)[0]) && !IsJsWs(TrimEnd(s)[|TrimEnd(s)| - 1])
  {
    if IsJsWs(s[|s| - 1]) {
      TrimEndKeepsStart(s[..|s| - 1]);
    }
  }

  lemma {:induction false} TrimStartTrims(s: string)
    ensures TrimStart(s) != "" ==> !IsJsWs(TrimStart(s)[0])
  {
    if s != "" && IsJsWs(s[0]) {
      TrimStartTrims(s[1..]);
    }
  }

  lemma NeedleTrimmed(s: string)
    ensures Trimmed(NormalizeNeedle(s))
  {
    TrimStartTrims(Collapse(s, true));
    if TrimStart(Collapse(s, true)) != "" {
      TrimEndKeepsStart(TrimStart(Collapse(s, true)));
    }
  }

  // ---------------------------------------------------------------- occurrences

  predicate OccursAt(norm: string, needle: string, i: int) {
    0 <= i && i + |needle| <= |norm| && norm[i..i + |needle|] == needle
  }

  /** The first occurrence at or after a position. */
  function First(norm: string, needle: string, from: nat): Option<nat>
    decreases |norm| - from
  {
    if from > |norm| then None
    else if OccursAt(norm, needle, from) then Some(from)
    else if from == |norm| then None
    else First(norm, needle, from + 1)
  }

  lemma {:induction false} FirstIsFirst(norm: string, needle: string, from: nat)
    ensures First(norm, needle, from).None? ==> forall p :: p >= from ==> !OccursAt(norm, needle, p)
    ensures First(norm, needle, from).Some? ==>
      var i := First(norm, needle, from).value;
      i >= from && OccursAt(norm, needle, i) && forall p :: from <= p < i ==> !OccursAt(norm, needle, p)
    decreases |norm| - from
  {
    if from < |norm| && !OccursAt(norm, needle, from) {
      FirstIsFirst(norm, needle, from + 1);
    }
  }

  /** The occurrences the search examines: from left to right, none overlapping, at most budget of them. */
  function Hits(norm: string, needle: string, from: nat, budget: nat): seq<nat>
    decreases budget
  {
    if budget == 0 || First(norm, needle, from).None? then []
    else
      var i := First(norm, needle, from).value;
      [i] + Hits(norm, needle, i + if |needle| > 1 then |needle| else 1, budget - 1)
  }

  lemma HitsStep(norm: string, needle: string, from: nat, budget: nat)
    requires budget > 0
    ensures var i, step := First(norm, needle, from), if |needle| > 1 then |needle| else 1;
      Hits(norm, needle, from, budget) ==
        if i.None? then [] else [i.value] + Hits(norm, needle, i.value + step, budget - 1)
  {
  }

  lemma {:induction false} HitsOccur(norm: string, needle: string, from: nat, budget: nat, k: nat)
    requires k < |Hits(norm, needle, from, budget)|
    ensures Hits(norm, needle, from, budget)[k] >= from && OccursAt(norm, needle, Hits(norm, needle, from, budget)[k])
    ensures k > 0 ==> Hits(norm, needle, from, budget)[k - 1] + |needle| <= Hits(norm, needle, from, budget)[k]
    decreases budget
  {
    FirstIsFirst(norm, needle, from);
    if k > 0 {
      var i := First(norm, needle, from).value;
      HitsOccur(norm, needle, i + if |needle| > 1 then |needle| else 1, budget - 1, k - 1);
    }
  }

  /** Unless the search gave up at its budget, every occurrence is examined or overlaps one that is. */
  lemma {:induction false} HitsComplete(norm: string, needle: string, from: nat, budget: nat, p: nat)
    requires needle != "" && OccursAt(norm, needle, p) && p >= from
    requires |Hits(norm, needle, from, budget)| < budget
    ensures exists k :: 0 <= k < |Hits(norm, needle, from, budget)|
                     && Hits(norm, needle, from, budget)[k] <= p < Hits(norm, needle, from, budget)[k] + |needle|
    decreases budget
  {
    hide First, OccursAt;
    FirstIsFirst(norm, needle, from);
    var hits, i := Hits(norm, needle, from, budget), First(norm, needle, from).value;
    if p < i + |needle| {
      assert hits[0] <= p < hits[0] + |needle|;
    } else {
      var rest := Hits(norm, needle, i + |needle|, budget - 1);
      HitsComplete(norm, needle, i + |needle|, budget - 1, p);
      var k :| 0 <= k < |rest| && rest[k] <= p < rest[k] + |needle|;
      assert hits[k + 1] == rest[k];
    }
  }

  // ---------------------------------------------------------------- scores

  function PrefixLen(a: string, b: string): nat {
    if a == "" || b == "" || a[0] != b[0] then 0 else 1 + PrefixLen(a[1..], b[1..])
  }

  function SuffixLen(a: string, b: string): nat {
    if a == "" || b == "" || a[|a| - 1] != b[|b| - 1] then 0 else 1 + SuffixLen(a[..|a| - 1], b[..|b| - 1])
  }

  /** The length is that of the longest common prefix. */
  lemma {:induction false} PrefixLenLongest(a: string, b: string, m: nat)
    requires m <= |a| && m <= |b|
    ensures PrefixLen(a, b) <= |a| && PrefixLen(a, b) <= |b|
    ensures m <= PrefixLen(a, b) <==> a[..m] == b[..m]
  {
    if a != "" && b != "" && a[0] == b[0] {
      if m > 0 {
        PrefixLenLongest(a[1..], b[1..], m - 1);
        assert a[..m] == [a[0]] + a[1..][..m - 1] && b[..m] == [b[0]] + b[1..][..m - 1];
        assert a[1..][..m - 1] == a[..m][1..] && b[1..][..m - 1] == b[..m][1..];
      } else {
        PrefixLenLongest(a[1..], b[1..], 0);
      }
    } else if m > 0 {
      assert a[..m][0] == a[0] && b[..m][0] == b[0];
    }
  }

  lemma {:induction false} SuffixLenLongest(a: string, b: string, m: nat)
    requires m <= |a| && m <= |b|
    ensures SuffixLen(a, b) <= |a| && SuffixLen(a, b) <= |b|
    ensures m <= SuffixLen(a, b) <==> a[|a| - m..] == b[|b| - m..]
  {
    if a != "" && b != "" && a[|a| - 1] == b[|b| - 1] {
      var a', b' := a[..|a| - 1], b[..|b| - 1];
      if m > 0 {
        SuffixLenLongest(a', b', m - 1);
        assert a[|a| - m..] == a'[|a'| - (m - 1)..] + [a[|a| - 1]]
            && b[|b| - m..] == b'[|b'| - (m - 1)..] + [b[|b| - 1]];
      } else {
        SuffixLenLongest(a', b', 0);
      }
    } else if m > 0 {
      assert a[|a| - m..][m - 1] == a[|a| - 1] && b[|b| - m..][m - 1] == b[|b| - 1];
    }
  }

  function Meaningful(n: nat): nat {
    if n >= MIN_CTX_MATCH then n else 0
  }

  function Clip(n: int): nat {
    if n < CTX_MATCH_LEN then if n < 0 then 0 else n else CTX_MATCH_LEN
  }

  /** How well the neighbours of a hit agree with the saved context. */
  function Score(norm: string, needle: string, h: nat, bTail: string, aHead: string): nat
    requires OccursAt(norm, needle, h)
  {
    var end := h + |needle|;
    Meaningful(SuffixLen(norm[h - Clip(h)..h], bTail))
        + Meaningful(PrefixLen(norm[end..end + Clip(|norm| - end)], aHead))
  }

  predicate AllOccur(norm: string, needle: string, hits: seq<nat>) {
    forall k :: 0 <= k < |hits| ==> OccursAt(norm, needle, hits[k])
  }

  /** i is a hit that no hit beats and no earlier hit equals, and its score is positive. */
  predicate Wins(norm: string, needle: string, hits: seq<nat>, bTail: string, aHead: string, i: nat)
    requires AllOccur(norm, needle, hits)
  {
    i < |hits| && Score(norm, needle, hits[i], bTail, aHead) > 0
    && (forall k :: 0 <= k < |hits| ==>
          Score(norm, needle, hits[k], bTail, aHead) <= Score(norm, needle, hits[i], bTail, aHead))
    && (forall k :: 0 <= k < i ==>
          Score(norm, needle, hits[k], bTail, aHead) < Score(norm, needle, hits[i], bTail, aHead))
  }

  function Tail(s: string): string {
    s[|s| - Clip(|s|)..]
  }

  function Head(s: string): string {
    s[..Clip(|s|)]
  }

  /** With a saved context: the winner among the hits, or nothing when none scores. */
  predicate ChoosesByContext(norm: string, needle: string, hits: seq<nat>, bTail: string, aHead: string,
                             chosen: Option<nat>)
  {
    AllOccur(norm, needle, hits) &&
    if chosen.None? then forall k :: 0 <= k < |hits| ==> Score(norm, needle, hits[k], bTail, aHead) == 0
    else exists i :: 0 <= i < |hits| && Wins(norm, needle, hits, bTail, aHead, i) && chosen == Some(hits[i])
  }

  /** The rule of the search: chosen is the position of the accepted occurrence, if any. */
  predicate Chooses(norm: string, anchor: SavedText, chosen: Option<nat>) {
    var needle := NormalizeNeedle(anchor.text);
    var before, after := NormalizeContext(anchor.contextBefore), NormalizeContext(anchor.contextAfter);
    var hits := Hits(norm, needle, 0, MAX_HITS);
    if |anchor.text| < 2 || norm == "" || |needle| < 2 || hits == [] then
      chosen == None
    else if before == "" && after == "" then
      chosen == if |hits| == 1 then Some(hits[0]) else None
    else
      ChoosesByContext(norm, needle, hits, Tail(before), Head(after), chosen)
  }

  lemma HitsAllOccur(norm: string, needle: string)
    ensures AllOccur(norm, needle, Hits(norm, needle, 0, MAX_HITS))
  {
    var hits := Hits(norm, needle, 0, MAX_HITS);
    forall k | 0 <= k < |hits| ensures OccursAt(norm, needle, hits[k]) {
      HitsOccur(norm, needle, 0, MAX_HITS, k);
    }
  }

  /** The rule leaves one choice at most. */
  lemma ChoiceUnique(norm: string, anchor: SavedText, a: Option<nat>, b: Option<nat>)
    requires Chooses(norm, anchor, a) && Chooses(norm, anchor, b)
    ensures a == b
  {
  }

  /** What is chosen is an occurrence of the needle, and with a saved context one that agrees with it in at
      least four characters on one side. */
  lemma ChosenOccurs(norm: string, anchor: SavedText, chosen: nat)
    requires Chooses(norm, anchor, Some(chosen))
    ensures OccursAt(norm, NormalizeNeedle(anchor.text), chosen) && |NormalizeNeedle(anchor.text)| >= 2
    ensures NormalizeContext(anchor.contextBefore) != "" || NormalizeContext(anchor.contextAfter) != "" ==>
      Score(norm, NormalizeNeedle(anchor.text), chosen, Tail(NormalizeContext(anchor.contextBefore)),
            Head(NormalizeContext(anchor.contextAfter))) >= MIN_CTX_MATCH
  {
    HitsAllOccur(norm, NormalizeNeedle(anchor.text));
  }

  // ---------------------------------------------------------------- a selection in its own document

  lemma {:induction false} CollapseEnds(m: string, js: bool)
    requires m != "" && !Space(m[0], js) && !Space(m[|m| - 1], js)
    ensures Collapse(m, js) != "" && Collapse(m, js)[0] == m[0]
  {
  }

  function Gap(w: string): string {
    if w == "" then "" else " "
  }

  lemma CollapseGap(w: string, js: bool)
    requires forall k :: 0 <= k < |w| ==> Space(w[k], js)
    ensures Collapse(w, js) == Gap(w)
  {
    if w != "" {
      CollapseRun(w, js, |w|);
    }
  }

  lemma CollapseText(m: string, js: bool)
    requires m != "" && !Space(m[0], js)
    ensures Collapse(m, js) == [m[0]] + Collapse(m[1..], js)
  {
  }

  lemma TrailingAfterRun(m: string, w: string, js: bool, n: nat)
    requires n == WsRun(m, js) && 0 < n < |m|
    requires Collapse(m[n..] + w, js) == Collapse(m[n..], js) + Gap(w)
    ensures Collapse(m + w, js) == Collapse(m, js) + Gap(w)
  {
    hide Collapse;
    CollapseRun(m, js, n);
    CollapseRun(m + w, js, n);
    assert (m + w)[n..] == m[n..] + w;
    assert (" " + Collapse(m[n..], js)) + Gap(w) == " " + (Collapse(m[n..], js) + Gap(w));
  }

  lemma TrailingAfterText(m: string, w: string, js: bool)
    requires m != "" && !Space(m[0], js)
    requires Collapse(m[1..] + w, js) == Collapse(m[1..], js) + Gap(w)
    ensures Collapse(m + w, js) == Collapse(m, js) + Gap(w)
  {
    CollapseText(m, js);
    CollapseText(m + w, js);
    assert (m + w)[1..] == m[1..] + w;
    assert ([m[0]] + Collapse(m[1..], js)) + Gap(w) == [m[0]] + (Collapse(m[1..], js) + Gap(w));
  }

  /** White space at the end becomes one space at the end. */
  lemma {:induction false} CollapseTrailing(m: string, w: string, js: bool)
    requires m != "" && !Space(m[|m| - 1], js) && forall k :: 0 <= k < |w| ==> Space(w[k], js)
    ensures Collapse(m + w, js) == Collapse(m, js) + Gap(w)
    decreases |m|
  {
    var n := WsRun(m, js);
    if n > 0 {
      CollapseTrailing(m[n..], w, js);
      TrailingAfterRun(m, w, js, n);
    } else {
      if |m| > 1 {
        CollapseTrailing(m[1..], w, js);
      } else {
        CollapseGap(w, js);
        assert m[1..] + w == w;
      }
      TrailingAfterText(m, w, js);
    }
  }

  lemma {:induction false} CollapseEndsText(m: string, js: bool)
    requires m != "" && !Space(m[|m| - 1], js)
    ensures Collapse(m, js) != "" && Collapse(m, js)[|Collapse(m, js)| - 1] == m[|m| - 1]
    decreases |m|
  {
    if Space(m[0], js) {
      CollapseEndsText(m[WsRun(m, js)..], js);
    } else if |m| > 1 {
      CollapseEndsText(m[1..], js);
    }
  }

  /** The core of a selection: what is left of it without white space at the ends. */
  predicate Core(t: string, a: nat, b: nat, lo: nat, hi: nat) {
    && a <= lo < hi <= b <= |t| && !IsJsWs(t[lo]) && !IsJsWs(t[hi - 1])
    && (forall k :: a <= k < lo ==> IsJsWs(t[k])) && (forall k :: hi <= k < b ==> IsJsWs(t[k]))
  }

  lemma TrimStartOf(x: string, left: bool)
    requires x != "" && !IsJsWs(x[0])
    ensures TrimStart((if left then " " else "") + x) == x
  {
    hide IsJsWs;
    SpaceIsWs();
    if left {
      assert (" " + x)[1..] == x && (" " + x)[0] == ' ';
    } else {
      assert "" + x == x;
    }
  }

  lemma TrimEndOf(x: string, right: bool)
    requires x != "" && !IsJsWs(x[|x| - 1])
    ensures TrimEnd(x + if right then " " else "") == x
  {
    hide IsJsWs;
    SpaceIsWs();
    if right {
      assert (x + " ")[..|x|] == x && (x + " ")[|x|] == ' ';
    } else {
      assert x + "" == x;
    }
  }

  lemma SpaceIsWs()
    ensures IsJsWs(' ')
  {
  }

  lemma TrimsToCore(x: string, left: bool, right: bool)
    requires x != "" && !IsJsWs(x[0]) && !IsJsWs(x[|x| - 1])
    ensures TrimEnd(TrimStart((if left then " " else "") + x + if right then " " else "")) == x
  {
    hide IsJsWs, TrimEnd, TrimStart;
    var y := x + if right then " " else "";
    assert (if left then " " else "") + x + (if right then " " else "") == (if left then " " else "") + y;
    TrimStartOf(y, left);
    TrimEndOf(x, right);
  }

  /** The needle is the collapsed core. */
  lemma NeedleOfSelection(t: string, a: nat, b: nat, lo: nat, hi: nat)
    requires Core(t, a, b, lo, hi)
    ensures NormalizeNeedle(t[a..b]) == Collapse(t[lo..hi], true)
  {
    hide Collapse, TrimEnd, TrimStart, IsJsWs;
    var s, m, w := t[a..b], t[lo..hi], t[hi..b];
    CollapseLeading(s, true, lo - a);
    assert s[lo - a..] == m + w;
    CollapseTrailing(m, w, true);
    CollapseEnds(m, true);
    CollapseEndsText(m, true);
    TrimsToCore(Collapse(m, true), lo > a, w != "");
    assert (if lo > a then " " else "") + (Collapse(m, true) + Gap(w))
        == (if lo > a then " " else "") + Collapse(m, true) + Gap(w);
  }

  /** White space of the saved form that the projection also knows. */
  predicate Plain(t: string, lo: nat, hi: nat)
    requires lo <= hi <= |t|
  {
    forall k :: lo <= k < hi && IsJsWs(t[k]) ==> IsWs(t[k])
  }

  lemma {:induction false} PlainCollapse(s: string)
    requires forall k :: 0 <= k < |s| && IsJsWs(s[k]) ==> IsWs(s[k])
    ensures Collapse(s, true) == Collapse(s, false)
    decreases |s|
  {
    if s != "" && IsWs(s[0]) {
      var n := WsRun(s, true);
      CollapseRun(s, true, n);
      CollapseRun(s, false, n);
      PlainCollapse(s[n..]);
    } else if s != "" {
      PlainCollapse(s[1..]);
    }
  }

  /** Every character that is no white space has its place in the projection. */
  lemma {:induction false} PlaceOf(t: string, p: nat) returns (k: nat)
    requires p < |t| && !IsWs(t[p])
    ensures k < |Norm(t)| && |NormToRaw(t)| == |Norm(t)| + 1
    ensures NormToRaw(t)[k] == p && NormToRaw(t)[k + 1] == p + 1 && Norm(t)[k] == t[p]
  {
    k := PlaceIn(t, p);
    BuiltAlways(t);
    var raw := NormToRaw(t);
    assert Stretch(t, Norm(t)[k], raw[k], raw[k + 1]);
  }

  lemma {:induction false} PlaceIn(t: string, p: nat) returns (k: nat)
    requires p < |t| && !IsWs(t[p])
    ensures k < |Norm(t)| && |Origins(t)| == |Norm(t)| && Origins(t)[k] == p
  {
    BuiltAlways(t);
    BuiltAlways(t[..|t| - 1]);
    if p == |t| - 1 {
      k := |Norm(t)| - 1;
    } else {
      k := PlaceIn(t[..|t| - 1], p);
    }
  }

  /** The core of a selection collapses to the stretch of the projection at its own place. */
  lemma CoreInProjection(t: string, lo: nat, hi: nat) returns (i: nat, j: nat)
    requires lo < hi <= |t| && !IsWs(t[lo]) && !IsWs(t[hi - 1])
    ensures i <= j <= |Norm(t)| && |NormToRaw(t)| == |Norm(t)| + 1
    ensures NormToRaw(t)[i] == lo && NormToRaw(t)[j] == hi && Norm(t)[i..j] == Collapse(t[lo..hi], false)
  {
    i := PlaceOf(t, lo);
    var last := PlaceOf(t, hi - 1);
    if last < i { OriginsOrdered(t, last, i); }
    j := last + 1;
    PartCollapses(t, i, j);
  }

  /** A needle has no white space but single spaces. */
  lemma {:induction false} OnlySpaces(s: string, k: nat)
    requires k < |Collapse(s, true)| && IsJsWs(Collapse(s, true)[k])
    ensures Collapse(s, true)[k] == ' '
    decreases |s|
  {
    var n := WsRun(s, true);
    if n > 0 {
      CollapseRun(s, true, n);
      if k > 0 { OnlySpaces(s[n..], k - 1); }
    } else {
      CollapseText(s, true);
      OnlySpaces(s[1..], k - 1);
    }
  }

  /** What follows a part, up to text, adds to what the part collapses to. */
  lemma {:induction false} CollapseGrows(x: string, y: string)
    requires y != "" && !IsJsWs(y[|y| - 1])
    ensures |Collapse(x + y, true)| > |Collapse(x, true)|
    decreases |x|
  {
    hide IsJsWs;
    var n := WsRun(x, true);
    if x == "" {
    } else if n == 0 {
      CollapseText(x, true);
      CollapseText(x + y, true);
      assert (x + y)[1..] == x[1..] + y;
      CollapseGrows(x[1..], y);
    } else if n < |x| {
      CollapseRun(x, true, n);
      CollapseRun(x + y, true, n);
      assert (x + y)[n..] == x[n..] + y;
      CollapseGrows(x[n..], y);
    } else {
      GrowsAfterBlank(x, y);
    }
  }

  lemma GrowsAfterBlank(x: string, y: string)
    requires x != "" && WsRun(x, true) == |x| && y != "" && !IsJsWs(y[|y| - 1])
    ensures |Collapse(x + y, true)| > |Collapse(x, true)|
  {
    hide IsJsWs, Collapse;
    CollapseGap(x, true);
    assert (x + y)[0] == x[0] && (x + y)[|x + y| - 1] == y[|y| - 1];
    var k := WsRun(x + y, true);
    assert 0 < k < |x + y|;
    CollapseRun(x + y, true, k);
    CollapseText((x + y)[k..], true);
  }

  /** Where the first exotic space of the core stands, the projection keeps it and the needle does not. */
  lemma ExoticSpaceMisses(t: string, lo: nat, hi: nat, i: nat, k: nat)
    requires lo < k < hi <= |t| && !IsJsWs(t[lo]) && !IsJsWs(t[hi - 1])
    requires IsJsWs(t[k]) && !IsWs(t[k]) && Plain(t, lo, k)
    requires i < |Norm(t)| && |NormToRaw(t)| == |Norm(t)| + 1 && NormToRaw(t)[i] == lo
    ensures !OccursAt(Norm(t), Collapse(t[lo..hi], true), i)
  {
    hide Norm, NormToRaw, Collapse;
    var needle := Collapse(t[lo..hi], true);
    var p := PlaceOf(t, k);
    if p < i { OriginsOrdered(t, p, i); }
    PartCollapses(t, i, p);
    PlainCollapse(t[lo..k]);
    CollapseGrows(t[lo..k], t[k..hi]);
    assert t[lo..hi] == t[lo..k] + t[k..hi];
    assert p - i < |needle|;
    if OccursAt(Norm(t), needle, i) {
      assert needle[p - i] == Norm(t)[i..i + |needle|][p - i] == Norm(t)[p];
      OnlySpaces(t[lo..hi], p - i);
    }
  }

  /** The needle of a selection occurs at the selection's own place exactly when all the white space inside it
      is of the kinds the projection collapses. */
  lemma SelectionOccurs(t: string, a: nat, b: nat, lo: nat, hi: nat) returns (i: nat)
    requires Core(t, a, b, lo, hi)
    ensures i < |Norm(t)| && |NormToRaw(t)| == |Norm(t)| + 1 && NormToRaw(t)[i] == lo
    ensures OccursAt(Norm(t), NormalizeNeedle(t[a..b]), i) <==> Plain(t, lo, hi)
  {
    var j;
    i, j := CoreInProjection(t, lo, hi);
    NeedleOfSelection(t, a, b, lo, hi);
    if i == j { OriginsOrdered(t, i, j); }
    if Plain(t, lo, hi) {
      PlainCollapse(t[lo..hi]);
    } else {
      var k := FirstExotic(t, lo, hi);
      ExoticSpaceMisses(t, lo, hi, i, k);
    }
  }

  lemma {:induction false} FirstExotic(t: string, lo: nat, hi: nat) returns (k: nat)
    requires lo < hi <= |t| && !Plain(t, lo, hi)
    ensures lo <= k < hi && IsJsWs(t[k]) && !IsWs(t[k]) && Plain(t, lo, k)
    decreases hi
  {
    if lo < hi - 1 && !Plain(t, lo, hi - 1) {
      k := FirstExotic(t, lo, hi - 1);
    } else {
      k := hi - 1;
    }
  }

  // ---------------------------------------------------------------- whether the search chooses it

  /** The needle occurs nowhere but at i or overlapping that occurrence from the right. */
  ghost predicate NoOther(norm: string, needle: string, i: nat) {
    forall p: nat :: OccursAt(norm, needle, p) ==> i <= p < i + |needle|
  }

  lemma NothingFrom(norm: string, needle: string, from: nat, budget: nat)
    requires forall p: nat :: OccursAt(norm, needle, p) ==> p < from
    ensures Hits(norm, needle, from, budget) == []
  {
    FirstIsFirst(norm, needle, from);
  }

  /** An occurrence is the only one examined exactly when there is no other. */
  lemma OnlyHit(norm: string, needle: string, i: nat)
    requires |needle| >= 2
    ensures Hits(norm, needle, 0, MAX_HITS) == [i] <==> OccursAt(norm, needle, i) && NoOther(norm, needle, i)
  {
    hide First, OccursAt, Hits;
    var hits := Hits(norm, needle, 0, MAX_HITS);
    if hits == [i] {
      HitsOccur(norm, needle, 0, MAX_HITS, 0);
      forall p: nat | OccursAt(norm, needle, p) ensures i <= p < i + |needle| {
        HitsComplete(norm, needle, 0, MAX_HITS, p);
      }
    } else if OccursAt(norm, needle, i) && NoOther(norm, needle, i) {
      FirstIsFirst(norm, needle, 0);
      NothingFrom(norm, needle, i + |needle|, MAX_HITS - 1);
      HitsStep(norm, needle, 0, MAX_HITS);
    }
  }

  /** i is examined, and wins. */
  predicate WinsAt(norm: string, needle: string, hits: seq<nat>, bTail: string, aHead: string, i: nat)
    requires AllOccur(norm, needle, hits)
  {
    exists k :: 0 <= k < |hits| && hits[k] == i && Wins(norm, needle, hits, bTail, aHead, k)
  }

  /** Whether the search, given a saved context or none, settles on the occurrence at i. */
  ghost predicate Settles(norm: string, anchor: SavedText, i: nat) {
    var needle := NormalizeNeedle(anchor.text);
    var before, after := NormalizeContext(anchor.contextBefore), NormalizeContext(anchor.contextAfter);
    var hits := Hits(norm, needle, 0, MAX_HITS);
    |needle| >= 2 &&
    if before == "" && after == "" then NoOther(norm, needle, i)
    else AllOccur(norm, needle, hits) && WinsAt(norm, needle, hits, Tail(before), Head(after), i)
  }

  lemma {:induction false} CollapseShrinks(s: string, js: bool)
    ensures |Collapse(s, js)| <= |s|
    decreases |s|
  {
    if s != "" {
      CollapseShrinks(s[if Space(s[0], js) then WsRun(s, js) else 1..], js);
    }
  }

  lemma NeedleShrinks(t: string, a: nat, b: nat, lo: nat, hi: nat)
    requires Core(t, a, b, lo, hi)
    ensures |NormalizeNeedle(t[a..b])| <= |t[a..b]|
  {
    NeedleOfSelection(t, a, b, lo, hi);
    CollapseShrinks(t[lo..hi], true);
  }

  /** The rule for one place: an occurrence there on which the search settles. */
  lemma ChoosesAt(norm: string, anchor: SavedText, i: nat)
    requires |NormalizeNeedle(anchor.text)| <= |anchor.text|
    ensures Chooses(norm, anchor, Some(i)) <==>
      OccursAt(norm, NormalizeNeedle(anchor.text), i) && Settles(norm, anchor, i)
  {
    hide First, Hits, OccursAt, NormalizeNeedle, NormalizeContext, Wins, Score;
    var needle := NormalizeNeedle(anchor.text);
    var hits := Hits(norm, needle, 0, MAX_HITS);
    HitsAllOccur(norm, needle);
    if |needle| >= 2 {
      OnlyHit(norm, needle, i);
      OccurrenceFits(norm, needle);
    }
  }

  lemma OccurrenceFits(norm: string, needle: string)
    requires needle != ""
    ensures norm == "" ==> forall p: nat :: !OccursAt(norm, needle, p)
  {
  }

  /** When a selection is found again in its own document, at its own place: exactly when all the white space
      inside it is of the kinds the projection collapses, its needle has two characters at least, and either no
      context was saved and the needle occurs nowhere else, or the selection is among the occurrences examined
      and its context beats that of every other, the earlier ones strictly. */
  lemma SelectionFoundAgain(t: string, a: nat, b: nat, lo: nat, hi: nat, anchor: SavedText) returns (i: nat)
    requires Core(t, a, b, lo, hi) && anchor.text == t[a..b]
    ensures i < |Norm(t)| && |NormToRaw(t)| == |Norm(t)| + 1 && NormToRaw(t)[i] == lo
    ensures Chooses(Norm(t), anchor, Some(i)) <==> Plain(t, lo, hi) && Settles(Norm(t), anchor, i)
  {
    hide Norm, NormToRaw, OccursAt, Chooses, Settles, NormalizeNeedle;
    i := SelectionOccurs(t, a, b, lo, hi);
    NeedleShrinks(t, a, b, lo, hi);
    ChoosesAt(Norm(t), anchor, i);
  }

  lemma TwoAs()
    ensures NormalizeNeedle("aa") == "aa"
  {
    hide TrimStart, TrimEnd;
    assert Core("aa", 0, 2, 0, 2);
    NeedleOfSelection("aa", 0, 2, 0, 2);
    CollapseText("aa", true);
    CollapseText("a", true);
    assert "aa"[0..2] == "aa" && "aa"[1..] == "a" && "a"[1..] == "";
  }

  lemma ThreeAs()
    ensures Norm("aaa") == "aaa" && NormalizeNeedle("aa") == "aa"
  {
    hide NormalizeNeedle;
    TwoAs();
    NormSnoc("", 'a');
    NormSnoc("a", 'a');
    NormSnoc("aa", 'a');
    assert "" + ['a'] == "a" && "a" + ['a'] == "aa" && "aa" + ['a'] == "aaa";
  }

  /** A place the search never examines, whatever context was saved: the second of two overlapping occurrences. */
  lemma OverlappedIsMissed(anchor: SavedText)
    requires anchor.text == "aa"
    ensures Core("aaa", 1, 3, 1, 3) && "aaa"[1..3] == anchor.text && Plain("aaa", 1, 3)
    ensures !Chooses(Norm("aaa"), anchor, Some(1))
  {
    hide Norm, NormalizeNeedle, NormalizeContext, Hits, Wins;
    ThreeAs();
    var norm, needle := "aaa", "aa";
    assert norm[0..2] == needle && norm[1..3] == needle;
    assert forall p: nat :: OccursAt(norm, needle, p) ==> 0 <= p < 2;
    OnlyHit(norm, needle, 0);
  }
}
