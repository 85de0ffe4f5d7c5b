/** Stamping: which tags of a document are artifacts, the identity each gets, and the rewritten document. The
    content hash is a parameter. */
module Stamper {
  import opened CommentTypes
  import opened StampScan
  import opened TextPrefix
  import TextIndex

  const STAMPABLE: seq<string> := ["img", "svg", "canvas", "video", "pre", "figure", "iframe",
                                   "section", "aside", "blockquote", "table", "details"]

  /** The identity of a tag name, its inner HTML and its attributes, both without earlier identities. */
  type Hash = (string, string, string) -> string

  // ---------------------------------------------------------------- opt-in markers

  predicate WordAt(s: string, i: nat, w: string) {
    i + |w| <= |s| && FoldPrefix(s[i..], w) && BoundaryAt(s, i) && BoundaryAt(s, i + |w|)
  }

  function QuoteFrom(s: string, from: nat): (r: Option<nat>)
    ensures r.Some? ==> from <= r.value < |s| && s[r.value] == '"'
    decreases |s| - from
  {
    if from >= |s| then None else if s[from] == '"' then Some(from) else QuoteFrom(s, from + 1)
  }

  /** After a name: white space, "=", white space and a quoted value. The result is where the value starts and
      where its closing quote stands. */
  function ValueAt(s: string, from: nat): (r: Option<(nat, nat)>)
    ensures r.Some? ==> from < r.value.0 <= r.value.1 < |s|
  {
    if from > |s| then None else
    var eq := from + TextIndex.WsRun(s[from..], true);
    if eq >= |s| || s[eq] != '=' then None else
    var quote := eq + 1 + TextIndex.WsRun(s[eq + 1..], true);
    if quote >= |s| || s[quote] != '"' then None else
    var end := QuoteFrom(s, quote + 1);
    if end.None? then None else Some((quote + 1, end.value))
  }

  const MARKER := "data-odoc-artifact"
  const CLASS_MARKER := "odoc-artifact"

  predicate HasMarker(attrs: string) {
    exists i: nat :: i <= |attrs| && WordAt(attrs, i, MARKER)
  }

  predicate ClassAt(attrs: string, i: nat) {
    i + 5 <= |attrs| && FoldPrefix(attrs[i..], "class") &&
    var v := ValueAt(attrs, i + 5);
    v.Some? && exists j: nat ::
      v.value.0 <= j <= v.value.1 && j + |CLASS_MARKER| <= v.value.1 && WordAt(attrs, j, CLASS_MARKER)
  }

  predicate HasClass(attrs: string) {
    exists i: nat :: i <= |attrs| && ClassAt(attrs, i)
  }

  predicate Marked(attrs: string) {
    HasMarker(attrs) || HasClass(attrs)
  }

  // ---------------------------------------------------------------- artifacts

  predicate IsLetter(c: char) {
    'A' <= c <= 'Z' || 'a' <= c <= 'z'
  }

  predicate IsName(c: char) {
    IsWord(c) || c == '-'
  }

  function NameRun(s: string, from: nat): (n: nat)
    requires from <= |s|
    ensures from <= n <= |s| && (forall k :: from <= k < n ==> IsName(s[k])) && (n == |s| || !IsName(s[n]))
    decreases |s| - from
  {
    if from == |s| || !IsName(s[from]) then from else NameRun(s, from + 1)
  }

  /** The longest prefix up to n that ends at a word boundary. */
  function BackOff(s: string, n: nat): (m: nat)
    requires n <= |s|
    ensures m <= n && (m > 0 ==> BoundaryAt(s, m))
  {
    if n == 0 then 0 else if BoundaryAt(s, n) then n else BackOff(s, n - 1)
  }

  function LowerAll(s: string): (r: string)
    ensures |r| == |s| && forall k :: 0 <= k < |s| ==> r[k] == Lower(s[k])
  {
    if s == "" then "" else [Lower(s[0])] + LowerAll(s[1..])
  }

  /** The length of "<" and a tag name at the start of s. */
  function ProbeAt(s: string): (n: nat)
    ensures n <= |s| && (n > 0 ==> n >= 2 && BoundaryAt(s, n) && s[0] == '<' && forall k :: 1 <= k < n ==> IsName(s[k]))
  {
    if |s| >= 2 && s[0] == '<' && IsLetter(s[1]) then
      var n := BackOff(s, NameRun(s, 1));
      if n >= 2 then n else 0
    else 0
  }

  /** A harvested open tag: its name, its length and its attribute text. */
  datatype Element = Element(tag: string, len: nat, attrs: string)

  /** A tag name is at its place: letters, digits, "_" and "-" only. */
  lemma {:induction false} NameBeforeEnd(s: string, k: nat)
    requires s != "" && OpenEnd(s).Some? && 1 <= k <= |s| && forall i :: 1 <= i < k ==> IsName(s[i])
    ensures OpenEnd(s).value > k
  {
    ScanPastName(s[1..], k - 1);
  }

  lemma {:induction false} ScanPastName(s: string, k: nat)
    requires ScanEnd(s, NUL).Some? && k <= |s| && forall i :: 0 <= i < k ==> IsName(s[i])
    ensures ScanEnd(s, NUL).value > k
  {
    if k > 0 {
      assert IsName(s[0]);
      ScanPastName(s[1..], k - 1);
    }
  }

  lemma StampableNonEmpty()
    ensures "" !in STAMPABLE
  {
  }

  /** The tag name harvested at the start of s, before markers are asked for: a stampable name, else any. */
  function TagAt(s: string): (r: Option<string>)
    ensures r.Some? ==> |r.value| + 1 <= |s| && s[0] == '<' && r.value != "" && BoundaryAt(s, |r.value| + 1)
  {
    FirstOpenHas(s, STAMPABLE);
    StampableNonEmpty();
    var named := FirstOpen(s, STAMPABLE);
    if named.Some? then named
    else if ProbeAt(s) > 0 then Some(LowerAll(s[1..ProbeAt(s)]))
    else None
  }

  predicate Stampable(s: string) {
    FirstOpen(s, STAMPABLE).Some?
  }

  /** The artifact whose open tag starts s, if there is one. */
  function ElementAt(s: string): (r: Option<Element>)
    ensures r.Some? ==> s != "" && s[0] == '<' && OpenEnd(s) == Some(r.value.len) && TagAt(s) == Some(r.value.tag)
    ensures r.Some? ==> |r.value.tag| + 1 < r.value.len && r.value.attrs == s[|r.value.tag| + 1..r.value.len - 1]
  {
    var tag := TagAt(s);
    if tag.None? || OpenEnd(s).None? then None else
    NameIsShort(s);
    var len := OpenEnd(s).value;
    var attrs := s[|tag.value| + 1..len - 1];
    if Stampable(s) || Marked(attrs) then Some(Element(tag.value, len, attrs)) else None
  }

  predicate Letters(tag: string) {
    tag != "" && forall k :: 0 <= k < |tag| ==> IsLetter(tag[k])
  }

  lemma StampableLetters(tag: string)
    requires tag in STAMPABLE
    ensures Letters(tag)
  {
  }

  /** Letters in any case are name characters. */
  lemma FoldedName(s: string, tag: string)
    requires OpenAt(s, tag) && Letters(tag)
    ensures forall i :: 1 <= i < |tag| + 1 ==> IsName(s[i])
  {
    forall i | 1 <= i < |tag| + 1 ensures IsName(s[i]) {
      assert Lower(s[1..][i - 1]) == Lower(tag[i - 1]);
    }
  }

  lemma NameIsShort(s: string)
    requires TagAt(s).Some? && OpenEnd(s).Some?
    ensures OpenEnd(s).value > |TagAt(s).value| + 1
  {
    if Stampable(s) {
      var tag := FirstOpen(s, STAMPABLE).value;
      FirstOpenHas(s, STAMPABLE);
      StampableLetters(tag);
      FoldedName(s, tag);
      NameBeforeEnd(s, |tag| + 1);
    } else {
      NameBeforeEnd(s, ProbeAt(s));
    }
  }

  /** "/" and white space at the end. */
  predicate SelfCloses(attrs: string) {
    attrs != "" &&
    if TextIndex.IsJsWs(attrs[|attrs| - 1]) then SelfCloses(attrs[..|attrs| - 1]) else attrs[|attrs| - 1] == '/'
  }

  predicate IsVoid(e: Element) {
    LowerAll(e.tag) == "img" || LowerAll(e.tag) == "iframe" || SelfCloses(e.attrs)
  }

  /** What stands between the open tag and the close tag, whose length is taken to be that of "</tag>". */
  function Inner(s: string, e: Element): string
    requires e.tag != "" && e.len <= |s|
  {
    if IsVoid(e) then "" else
    var close := Close(s[e.len..], e.tag, 1);
    if close.None? then "" else s[e.len..][..close.value - (|e.tag| + 3)]
  }

  const AID_ATTR := "data-odoc-aid"

  /** The length of an identity attribute at the start of s, led by one white-space character or by a run. */
  function AidAt(s: string, run: bool): (r: Option<nat>)
    ensures r.Some? ==> 0 < r.value <= |s|
  {
    if s == "" || !TextIndex.IsJsWs(s[0]) then None else
    var k := if run then TextIndex.WsRun(s, true) else 1;
    if !StartsWith(s[k..], AID_ATTR) then None else
    var v := ValueAt(s, k + |AID_ATTR|);
    if v.None? then None else Some(v.value.1 + 1)
  }

  /** Identity attributes removed. */
  function Strip(s: string, run: bool): string {
    if s == "" then ""
    else
      var m := AidAt(s, run);
      if m.Some? then Strip(s[m.value..], run) else [s[0]] + Strip(s[1..], run)
  }

  function Stamp(aid: string): string {
    " data-odoc-aid=\"" + aid + "\""
  }

  /** The identity of the artifact that starts s. */
  function AidOf(hash: Hash, s: string, e: Element): string
    requires e.tag != "" && e.len <= |s|
  {
    hash(e.tag, Strip(Inner(s, e), false), Strip(e.attrs, true))
  }

  /** The open tag that replaces the harvested one. */
  function StampedOpen(hash: Hash, s: string, e: Element): string
    requires e.tag != "" && e.len <= |s|
  {
    "<" + e.tag + Strip(e.attrs, true) + Stamp(AidOf(hash, s, e))
        + (if IsVoid(e) && SelfCloses(e.attrs) then "/" else "") + ">"
  }

  // ---------------------------------------------------------------- one left-to-right rewrite

  function Rewrite(hash: Hash, s: string): string {
    if s == "" then ""
    else
      var e := ElementAt(s);
      if e.Some? then StampedOpen(hash, s, e.value) + Rewrite(hash, s[e.value.len..])
      else [s[0]] + Rewrite(hash, s[1..])
  }

  // ---------------------------------------------------------------- splicing, last offset first

  /** A replacement of document[start..end]. */
  datatype Patch = Patch(start: nat, end: nat, open: string)

  /** The replacements in the order of the list, by offsets of the unchanged document; None when they lie
      outside what the document has become. */
  function SpliceAll(html: string, ps: seq<Patch>): Option<string> {
    if ps == [] then Some(html)
    else
      var p, out := ps[|ps| - 1], SpliceAll(html, ps[..|ps| - 1]);
      if out.None? || !(p.start <= p.end <= |out.value|) then None
      else Some(out.value[..p.start] + p.open + out.value[p.end..])
  }

  /** The replacements lie apart, from the last in the document to the first. */
  predicate Laid(html: string, ps: seq<Patch>) {
    && (forall i :: 0 <= i < |ps| ==> ps[i].start < ps[i].end <= |html|)
    && (forall i, j :: 0 <= i < j < |ps| ==> ps[j].end <= ps[i].start)
  }

  /** One pass from left to right: gaps copied, replaced stretches not. */
  function Merge(html: string, from: nat, ps: seq<Patch>): string
    requires Laid(html, ps) && from <= |html| && forall i :: 0 <= i < |ps| ==> from <= ps[i].start
    decreases |ps|
  {
    if ps == [] then html[from..]
    else
      var p := ps[|ps| - 1];
      html[from..p.start] + (p.open + Merge(html, p.end, ps[..|ps| - 1]))
  }

  lemma Glue(html: string, p: nat, x: nat, q: nat, rest: string)
    requires p <= x <= q <= |html|
    ensures html[p..q] + rest == html[p..x] + (html[x..q] + rest)
  {
    assert html[p..q] == html[p..x] + html[x..q];
  }

  lemma MergeFrom(html: string, from: nat, x: nat, ps: seq<Patch>)
    requires Laid(html, ps) && from <= x <= |html| && forall i :: 0 <= i < |ps| ==> x <= ps[i].start
    ensures Merge(html, from, ps) == html[from..x] + Merge(html, x, ps)
  {
    if ps == [] {
      assert html[from..] == html[from..x] + html[x..];
    } else {
      var p := ps[|ps| - 1];
      Glue(html, from, x, p.start, p.open + Merge(html, p.end, ps[..|ps| - 1]));
    }
  }

  /** Splicing by stale offsets, last one first, is the left-to-right pass. */
  lemma {:induction false} SplicingIsMerging(html: string, ps: seq<Patch>)
    requires Laid(html, ps)
    ensures SpliceAll(html, ps) == Some(Merge(html, 0, ps))
  {
    if ps == [] {
      assert html[0..] == html;
    } else {
      var p, rest := ps[|ps| - 1], ps[..|ps| - 1];
      SplicingIsMerging(html, rest);
      MergeFrom(html, 0, p.end, rest);
      var tail := Merge(html, p.end, rest);
      var out := html[0..p.end] + tail;
      assert out[..p.start] == html[0..p.start] && out[p.end..] == tail;
      assert (html[0..p.start] + p.open) + tail == html[0..p.start] + (p.open + tail);
    }
  }

  // ---------------------------------------------------------------- the artifacts' replacements

  predicate IsArtifact(html: string, p: nat) {
    p < |html| && ElementAt(html[p..]).Some?
  }

  function EndAt(html: string, p: nat): (end: nat)
    requires IsArtifact(html, p)
    ensures p < end <= |html|
  {
    p + ElementAt(html[p..]).value.len
  }

  function PatchAt(hash: Hash, html: string, p: nat): Patch
    requires IsArtifact(html, p)
  {
    Patch(p, EndAt(html, p), StampedOpen(hash, html[p..], ElementAt(html[p..]).value))
  }

  function Patches(hash: Hash, html: string, starts: seq<nat>): (ps: seq<Patch>)
    requires forall p :: p in starts ==> IsArtifact(html, p)
    ensures |ps| == |starts|
  {
    if starts == [] then []
    else Patches(hash, html, starts[..|starts| - 1]) + [PatchAt(hash, html, starts[|starts| - 1])]
  }

  lemma {:induction false} PatchesAre(hash: Hash, html: string, starts: seq<nat>)
    requires forall p :: p in starts ==> IsArtifact(html, p)
    ensures forall i :: 0 <= i < |starts| ==>
      starts[i] in starts && Patches(hash, html, starts)[i] == PatchAt(hash, html, starts[i])
  {
    hide IsArtifact, PatchAt;
    if starts != [] {
      PatchesAre(hash, html, starts[..|starts| - 1]);
    }
  }

  /** All artifacts from a position on, last one first. */
  ghost predicate AllFrom(html: string, from: nat, starts: seq<nat>) {
    && (forall p: nat :: p in starts <==> p >= from && IsArtifact(html, p))
    && (forall i, j :: 0 <= i < j < |starts| ==> starts[j] < starts[i])
  }

  /** No artifact's open tag begins inside another's. */
  predicate Apart(html: string) {
    forall p: nat, q: nat :: p < q < |html| && IsArtifact(html, p) && IsArtifact(html, q) ==> EndAt(html, p) <= q
  }

  lemma RewriteOther(hash: Hash, html: string, p: nat)
    requires p < |html| && !IsArtifact(html, p)
    ensures Rewrite(hash, html[p..]) == [html[p]] + Rewrite(hash, html[p + 1..])
  {
    assert html[p..][1..] == html[p + 1..];
  }

  lemma OneMore(html: string, p: nat, q: nat, all: string, more: string, rest: string)
    requires p < q <= |html| && all == [html[p]] + more && more == html[p + 1..q] + rest
    ensures all == html[p..q] + rest
  {
    assert html[p..q] == [html[p]] + html[p + 1..q];
  }

  lemma {:induction false} NothingBetween(hash: Hash, html: string, p: nat, q: nat)
    requires p <= q <= |html| && forall r: nat :: p <= r < q ==> !IsArtifact(html, r)
    ensures Rewrite(hash, html[p..]) == html[p..q] + Rewrite(hash, html[q..])
    decreases q - p
  {
    if p < q {
      NothingBetween(hash, html, p + 1, q);
      RewriteOther(hash, html, p);
      OneMore(html, p, q, Rewrite(hash, html[p..]), Rewrite(hash, html[p + 1..]), Rewrite(hash, html[q..]));
    } else {
      assert html[p..q] == "";
    }
  }

  lemma RewriteArtifact(hash: Hash, html: string, p: nat)
    requires IsArtifact(html, p)
    ensures Rewrite(hash, html[p..]) == PatchAt(hash, html, p).open + Rewrite(hash, html[EndAt(html, p)..])
  {
    assert html[p..][ElementAt(html[p..]).value.len..] == html[EndAt(html, p)..];
  }

  lemma PatchesLaid(hash: Hash, html: string, from: nat, starts: seq<nat>)
    requires Apart(html) && AllFrom(html, from, starts)
    ensures Laid(html, Patches(hash, html, starts))
    ensures forall i :: 0 <= i < |starts| ==> from <= Patches(hash, html, starts)[i].start
  {
    hide IsArtifact, EndAt, Patches, StampedOpen;
    PatchesAre(hash, html, starts);
    forall i, j | 0 <= i < j < |starts| ensures EndAt(html, starts[j]) <= starts[i] {
      assert starts[j] < starts[i];
      ArtifactInside(html, starts[i]);
    }
  }

  lemma ArtifactInside(html: string, p: nat)
    requires IsArtifact(html, p)
    ensures p < |html|
  {
  }

  lemma LastIsLeast(starts: seq<nat>, rest: seq<nat>, p: nat)
    requires starts == rest + [p] && forall i, j :: 0 <= i < j < |starts| ==> starts[j] < starts[i]
    ensures forall r: nat :: r in starts <==> r in rest || r == p
    ensures forall r: nat :: r in rest ==> r > p
  {
    assert forall i :: 0 <= i < |rest| ==> rest[i] == starts[i] > starts[|rest|];
  }

  lemma NoneBefore(html: string, from: nat, starts: seq<nat>, rest: seq<nat>, p: nat)
    requires AllFrom(html, from, starts) && starts == rest + [p]
    ensures IsArtifact(html, p) && from <= p
    ensures forall r: nat :: from <= r < p ==> !IsArtifact(html, r)
  {
    LastIsLeast(starts, rest, p);
    assert p in starts;
    assert forall r: nat :: r in starts ==> r >= p;
  }

  lemma RestFrom(html: string, from: nat, starts: seq<nat>, rest: seq<nat>, p: nat)
    requires Apart(html) && AllFrom(html, from, starts) && starts == rest + [p] && IsArtifact(html, p)
    ensures AllFrom(html, EndAt(html, p), rest)
  {
    LastIsLeast(starts, rest, p);
    assert p in starts;
    forall r: nat ensures r in rest <==> r >= EndAt(html, p) && IsArtifact(html, r) {
      if r in rest {
        assert r in starts && p < r;
      } else if r >= EndAt(html, p) {
        assert r != p && r !in starts;
      }
    }
    assert forall i :: 0 <= i < |rest| ==> rest[i] == starts[i];
  }

  lemma {:induction false} MergingIsRewriting(hash: Hash, html: string, from: nat, starts: seq<nat>)
    requires Apart(html) && AllFrom(html, from, starts) && from <= |html|
    ensures Laid(html, Patches(hash, html, starts))
    ensures forall i :: 0 <= i < |starts| ==> from <= Patches(hash, html, starts)[i].start
    ensures Merge(html, from, Patches(hash, html, starts)) == Rewrite(hash, html[from..])
    decreases |starts|
  {
    PatchesLaid(hash, html, from, starts);
    if starts == [] {
      assert forall r: nat :: from <= r < |html| ==> !IsArtifact(html, r);
      NothingBetween(hash, html, from, |html|);
      assert html[from..|html|] + "" == html[from..];
    } else {
      var p, rest := starts[|starts| - 1], starts[..|starts| - 1];
      assert starts == rest + [p];
      NoneBefore(html, from, starts, rest, p);
      RestFrom(html, from, starts, rest, p);
      MergingIsRewriting(hash, html, EndAt(html, p), rest);
      NothingBetween(hash, html, from, p);
      RewriteArtifact(hash, html, p);
    }
  }

  /** When no artifact's open tag begins inside another's, the splices by stale offsets, last one first, give
      the document that one rewrite from left to right gives; in particular every byte outside the harvested
      open tags is preserved. */
  lemma SplicingIsRewriting(hash: Hash, html: string, starts: seq<nat>)
    requires Apart(html) && AllFrom(html, 0, starts)
    ensures Laid(html, Patches(hash, html, starts))
    ensures SpliceAll(html, Patches(hash, html, starts)) == Some(Rewrite(hash, html))
    ensures Merge(html, 0, Patches(hash, html, starts)) == Rewrite(hash, html)
  {
    MergingIsRewriting(hash, html, 0, starts);
    SplicingIsMerging(html, Patches(hash, html, starts));
    assert html[0..] == html;
  }
}
