/** The overlay's text index: the document's text nodes flattened, a whitespace-collapsed projection of the
    flat text, the map back to raw offsets, and the search that anchors a saved selection. Strings are
    sequences of UTF-16 units. */
module TextIndex {
  import opened CommentTypes

  /** What the projection treats as white space. */
  predicate IsWs(c: char) {
    c as int == 0x20 || c as int == 0x09 || c as int == 0x0a || c as int == 0x0d || c as int == 0xa0
  }

  /** What \s matches in a saved selection: more than the projection's set. */
  predicate IsJsWs(c: char) {
    IsWs(c) || c as int == 0x0b || c as int == 0x0c || c as int == 0x1680 || 0x2000 <= c as int <= 0x200a
    || c as int == 0x2028 || c as int == 0x2029 || c as int == 0x202f || c as int == 0x205f || c as int == 0x3000
    || c as int == 0xfeff
  }

  // ---------------------------------------------------------------- collapsing, by its meaning

  predicate AllWs(s: string, lo: int, hi: int)
    requires 0 <= lo <= hi <= |s|
  {
    forall k :: lo <= k < hi ==> IsWs(s[k])
  }

  /** One of the two sets: what a saved selection is normalised by, or what the projection collapses. */
  predicate Space(c: char, js: bool) {
    if js then IsJsWs(c) else IsWs(c)
  }

  function WsRun(s: string, js: bool): (n: nat)
    ensures n <= |s| && (forall k :: 0 <= k < n ==> Space(s[k], js)) && (n == |s| || !Space(s[n], js))
  {
    if s == "" || !Space(s[0], js) then 0 else WsRun(s[1..], js) + 1
  }

  lemma WsRunIs(s: string, js: bool, n: nat)
    requires n <= |s| && (forall k :: 0 <= k < n ==> Space(s[k], js)) && (n == |s| || !Space(s[n], js))
    ensures WsRun(s, js) == n
  {
    assert WsRun(s, js) < |s| ==> !Space(s[WsRun(s, js)], js);
  }

  /** Every maximal run of white space becomes one space. */
  function Collapse(s: string, js: bool): string {
    if s == "" then ""
    else if Space(s[0], js) then " " + Collapse(s[WsRun(s, js)..], js)
    else [s[0]] + Collapse(s[1..], js)
  }

  function DropLeadingSpace(s: string): string {
    if s != "" && s[0] == ' ' then s[1..] else s
  }

  // ---------------------------------------------------------------- the projection, as it is built

  /** Whether the next character of the text adds a character to the projection so far. */
  predicate Emits(norm: string, c: char) {
    !IsWs(c) || (norm != "" && norm[|norm| - 1] != ' ')
  }

  function Norm(t: string): string {
    if t == "" then ""
    else
      var norm, c := Norm(t[..|t| - 1]), t[|t| - 1];
      if Emits(norm, c) then norm + [if IsWs(c) then ' ' else c] else norm
  }

  /** Where in the text each character of the projection comes from. */
  function Origins(t: string): seq<nat> {
    if t == "" then []
    else Origins(t[..|t| - 1]) + if Emits(Norm(t[..|t| - 1]), t[|t| - 1]) then [|t| - 1] else []
  }

  /** With the sentinel for the end of the text. */
  function NormToRaw(t: string): seq<nat> {
    Origins(t) + [|t|]
  }

  /** One character of the projection and the stretch of text it stands for: a single character that is no
      white space, or a run of white space that cannot be extended. */
  predicate Stretch(t: string, c: char, lo: int, hi: int) {
    0 <= lo < hi <= |t| &&
    if c == ' ' then
      AllWs(t, lo, hi) && (hi == |t| || !IsWs(t[hi])) && lo > 0 && !IsWs(t[lo - 1])
    else
      t[lo] == c && !IsWs(c) && hi == lo + 1
  }

  /** All but the last stretch, which may still grow. */
  predicate Built(t: string) {
    var norm, raw := Norm(t), NormToRaw(t);
    && |raw| == |norm| + 1
    && (forall k :: 0 <= k < |norm| ==> Stretch(t, norm[k], raw[k], raw[k + 1]))
    && 0 <= raw[0] <= |t| && AllWs(t, 0, raw[0])
  }

  /** A stretch of the text so far is one of the longer text, unless it is white space that goes on. */
  lemma StretchStays(f: string, c: char, x: char, lo: int, hi: int)
    requires Stretch(f, x, lo, hi) && (x == ' ' && hi == |f| ==> !IsWs(c))
    ensures Stretch(f + [c], x, lo, hi)
  {
  }

  lemma NormSnoc(f: string, c: char)
    ensures Norm(f + [c]) == if Emits(Norm(f), c) then Norm(f) + [if IsWs(c) then ' ' else c] else Norm(f)
    ensures Origins(f + [c]) == Origins(f) + if Emits(Norm(f), c) then [|f|] else []
  {
    assert (f + [c])[..|f|] == f;
  }

  lemma RawSnoc(f: string, c: char)
    ensures NormToRaw(f + [c]) == if Emits(Norm(f), c) then NormToRaw(f) + [|f| + 1] else Origins(f) + [|f| + 1]
  {
    NormSnoc(f, c);
    var o, n := Origins(f), |f|;
    AppendNothing(o);
    assert |f + [c]| == n + 1;
  }

  lemma AppendNothing(o: seq<nat>)
    ensures o + [] == o
  {
  }

  lemma BuildText(f: string, c: char)
    requires Built(f) && !IsWs(c)
    ensures Built(f + [c])
  {
    NormSnoc(f, c);
    RawSnoc(f, c);
    forall k | 0 <= k < |Norm(f)| ensures Stretch(f + [c], Norm(f)[k], NormToRaw(f)[k], NormToRaw(f)[k + 1]) {
      StretchStays(f, c, Norm(f)[k], NormToRaw(f)[k], NormToRaw(f)[k + 1]);
    }
  }

  lemma BuildSpace(f: string, c: char)
    requires Built(f) && IsWs(c) && Emits(Norm(f), c)
    ensures Built(f + [c])
  {
    NormSnoc(f, c);
    RawSnoc(f, c);
    var norm, raw := Norm(f), NormToRaw(f);
    forall k | 0 <= k < |norm| ensures Stretch(f + [c], norm[k], raw[k], raw[k + 1]) {
      assert k + 1 < |norm| ==> Stretch(f, norm[k + 1], raw[k + 1], raw[k + 2]);
      StretchStays(f, c, norm[k], raw[k], raw[k + 1]);
    }
    assert Stretch(f, norm[|norm| - 1], raw[|norm| - 1], |f|);
  }

  lemma StretchGrows(f: string, c: char, lo: int)
    requires Stretch(f, ' ', lo, |f|) && IsWs(c)
    ensures Stretch(f + [c], ' ', lo, |f| + 1)
  {
  }

  lemma BuildSkip(f: string, c: char)
    requires Built(f) && IsWs(c) && !Emits(Norm(f), c)
    ensures Built(f + [c])
  {
    NormSnoc(f, c);
    RawSnoc(f, c);
    var norm, raw, raw' := Norm(f), NormToRaw(f), NormToRaw(f + [c]);
    assert |raw'| == |raw| && raw[|norm|] == |f| && raw'[|norm|] == |f| + 1;
    assert forall k :: 0 <= k < |norm| ==> raw'[k] == raw[k];
    if norm == "" {
      BuildBlank(f, c);
    } else {
      assert Stretch(f, norm[|norm| - 1], raw[|norm| - 1], raw[|norm|]);
      StretchGrows(f, c, raw[|norm| - 1]);
      forall k | 0 <= k < |norm| ensures Stretch(f + [c], norm[k], raw'[k], raw'[k + 1]) {
        if k < |norm| - 1 {
          assert Stretch(f, norm[k + 1], raw[k + 1], raw[k + 2]);
          StretchStays(f, c, norm[k], raw[k], raw[k + 1]);
        }
      }
    }
  }

  lemma BuildBlank(f: string, c: char)
    requires Built(f) && IsWs(c) && Norm(f) == "" && Norm(f + [c]) == "" && NormToRaw(f + [c]) == [|f| + 1]
    ensures Built(f + [c])
  {
    assert NormToRaw(f)[0] == |f|;
  }

  lemma {:induction false} BuiltAlways(t: string)
    ensures Built(t)
  {
    if t != "" {
      BuiltAlways(t[..|t| - 1]);
      var f, c := t[..|t| - 1], t[|t| - 1];
      if !IsWs(c) { BuildText(f, c); } else if Emits(Norm(f), c) { BuildSpace(f, c); } else { BuildSkip(f, c); }
      assert t == t[..|t| - 1] + [t[|t| - 1]];
    }
  }

  // ---------------------------------------------------------------- what the projection means

  /** The map back is strictly increasing up to its sentinel, the end of the text. */
  lemma OriginsIncrease(t: string)
    ensures |NormToRaw(t)| == |Norm(t)| + 1 && NormToRaw(t)[|Norm(t)|] == |t|
    ensures forall k :: 0 <= k < |Norm(t)| ==> NormToRaw(t)[k] < NormToRaw(t)[k + 1]
  {
    BuiltAlways(t);
    assert forall k :: 0 <= k < |Norm(t)| ==> Stretch(t, Norm(t)[k], NormToRaw(t)[k], NormToRaw(t)[k + 1]);
  }

  lemma {:induction false} OriginsOrdered(t: string, i: nat, j: nat)
    requires i <= j <= |Norm(t)|
    ensures |NormToRaw(t)| == |Norm(t)| + 1 && 0 <= NormToRaw(t)[i] <= NormToRaw(t)[j] <= |t|
    ensures i < j ==> NormToRaw(t)[i] < NormToRaw(t)[j]
    decreases j
  {
    BuiltAlways(t);
    if i < j {
      OriginsOrdered(t, i, j - 1);
      assert Stretch(t, Norm(t)[j - 1], NormToRaw(t)[j - 1], NormToRaw(t)[j]);
    }
  }

  /** Every stretch of the projection is what the stretch of text it stands for collapses to. */
  lemma {:induction false} PartCollapses(t: string, i: nat, j: nat)
    requires i <= j <= |Norm(t)|
    ensures |NormToRaw(t)| == |Norm(t)| + 1 && NormToRaw(t)[i] <= NormToRaw(t)[j] <= |t|
    ensures Collapse(t[NormToRaw(t)[i]..NormToRaw(t)[j]], false) == Norm(t)[i..j]
    decreases j - i
  {
    OriginsOrdered(t, i, j);
    if i < j {
      BuiltAlways(t);
      OriginsOrdered(t, i, i + 1);
      OriginsOrdered(t, i + 1, j);
      PartCollapses(t, i + 1, j);
      assert Stretch(t, Norm(t)[i], NormToRaw(t)[i], NormToRaw(t)[i + 1]);
      assert i + 1 < j ==> Stretch(t, Norm(t)[i + 1], NormToRaw(t)[i + 1], NormToRaw(t)[i + 2]);
      FirstStretch(t, Norm(t)[i], NormToRaw(t)[i], NormToRaw(t)[i + 1], NormToRaw(t)[j]);
      assert Norm(t)[i..j] == [Norm(t)[i]] + Norm(t)[i + 1..j];
    }
  }

  lemma FirstStretch(t: string, c: char, lo: int, mid: int, hi: int)
    requires Stretch(t, c, lo, mid) && mid <= hi <= |t|
    ensures Collapse(t[lo..hi], false) == [c] + Collapse(t[mid..hi], false)
  {
    var s := t[lo..hi];
    if c == ' ' {
      WsRunIs(s, false, mid - lo);
      assert s[mid - lo..] == t[mid..hi];
    } else {
      assert s[1..] == t[mid..hi];
    }
  }

  lemma CollapseRun(s: string, js: bool, k: nat)
    requires 0 < k <= |s| && (forall i :: 0 <= i < k ==> Space(s[i], js)) && (k == |s| || !Space(s[k], js))
    ensures Collapse(s, js) == " " + Collapse(s[k..], js)
  {
    WsRunIs(s, js, k);
  }

  lemma CollapseLeading(s: string, js: bool, k: nat)
    requires k <= |s| && (forall i :: 0 <= i < k ==> Space(s[i], js)) && (k == |s| || !Space(s[k], js))
    ensures Collapse(s, js) == (if k > 0 then " " else "") + Collapse(s[k..], js)
  {
    if k > 0 {
      CollapseRun(s, js, k);
    } else {
      assert s[0..] == s;
    }
  }

  /** The projection starts at the first character that is no white space, so never with a space. */
  lemma FirstIsText(t: string)
    ensures Built(t)
    ensures NormToRaw(t)[0] == |t| || !IsWs(t[NormToRaw(t)[0]])
    ensures Norm(t) == "" <==> NormToRaw(t)[0] == |t|
  {
    BuiltAlways(t);
    if Norm(t) != "" {
      assert Stretch(t, Norm(t)[0], NormToRaw(t)[0], NormToRaw(t)[1]);
    }
  }

  lemma WholeCollapses(t: string)
    ensures Built(t) && Collapse(t[NormToRaw(t)[0]..], false) == Norm(t)
  {
    BuiltAlways(t);
    var n := |Norm(t)|;
    PartCollapses(t, 0, n);
    OriginsIncrease(t);
    assert t[NormToRaw(t)[0]..NormToRaw(t)[n]] == t[NormToRaw(t)[0]..];
    assert Norm(t)[0..n] == Norm(t);
  }

  /** The projection is the text with white space collapsed and a leading space dropped. */
  lemma NormIsCollapsed(t: string)
    ensures Norm(t) == DropLeadingSpace(Collapse(t, false))
  {
    FirstIsText(t);
    WholeCollapses(t);
    var k := NormToRaw(t)[0];
    CollapseLeading(t, false, k);
    assert (" " + Norm(t))[1..] == Norm(t);
    assert k == 0 ==> "" + Norm(t) == Norm(t) && (Norm(t) != "" ==> Stretch(t, Norm(t)[0], 0, NormToRaw(t)[1]));
  }
}
