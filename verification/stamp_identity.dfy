/** What an artifact's identity depends on, and the open tag that carries it, in the document's own text. */
module StampIdentity {
  import opened CommentTypes
  import opened StampScan
  import opened TextPrefix
  import opened Stamper
  import opened StampLaws
  import TextIndex

  // ---------------------------------------------------------------- the end of an open tag

  /** The quote that is open after the first k characters, if q is open before them; NUL is none. */
  function QuoteOpen(s: string, k: nat, q: char): char
    requires k <= |s|
  {
    if k == 0 then q
    else
      var before, c := QuoteOpen(s, k - 1, q), s[k - 1];
      if before != NUL then (if c == before then NUL else before)
      else if c == '"' || c == '\'' then c
      else NUL
  }

  /** The n-th character is the first ">" outside quotes. */
  predicate FirstFree(s: string, q: char, n: nat) {
    && 0 < n <= |s| && s[n - 1] == '>' && QuoteOpen(s, n - 1, q) == NUL
    && forall k :: 0 <= k < n - 1 && s[k] == '>' ==> QuoteOpen(s, k, q) != NUL
  }

  lemma {:induction false} QuoteOpenTail(s: string, k: nat, q: char)
    requires 0 < k <= |s|
    ensures QuoteOpen(s, k, q) == QuoteOpen(s[1..], k - 1, QuoteOpen(s, 1, q))
  {
    assert QuoteOpen(s, 0, q) == q;
    if k > 1 {
      QuoteOpenTail(s, k - 1, q);
    }
  }

  lemma FreeTail(s: string, q: char, n: nat)
    requires s != ""
    ensures FirstFree(s, q, n) <==>
      if s[0] == '>' && q == NUL then n == 1 else n > 1 && FirstFree(s[1..], QuoteOpen(s, 1, q), n - 1)
  {
    var t, q1 := s[1..], QuoteOpen(s, 1, q);
    assert QuoteOpen(s, 0, q) == q;
    forall k: nat | 0 < k <= |s| ensures QuoteOpen(s, k, q) == QuoteOpen(t, k - 1, q1) {
      QuoteOpenTail(s, k, q);
    }
    hide QuoteOpen;
    if n > 1 && FirstFree(t, q1, n - 1) && !(s[0] == '>' && q == NUL) {
      forall k | 0 <= k < n - 1 && s[k] == '>' ensures QuoteOpen(s, k, q) != NUL {
        assert k > 0 ==> t[k - 1] == '>';
      }
    }
    if n > 1 && FirstFree(s, q, n) {
      forall k | 0 <= k < n - 2 && t[k] == '>' ensures QuoteOpen(t, k, q1) != NUL {
        assert s[k + 1] == '>';
      }
    }
  }

  /** An open tag ends at the first ">" outside quotes, and is unterminated if and only if there is none. */
  lemma {:induction false} ScanEndExact(s: string, q: char, n: nat)
    ensures ScanEnd(s, q) == Some(n) <==> FirstFree(s, q, n)
  {
    if s != "" {
      FreeTail(s, q, n);
      if n > 0 {
        ScanEndExact(s[1..], QuoteOpen(s, 1, q), n - 1);
      }
      assert QuoteOpen(s, 1, q) ==
        if q != NUL then (if s[0] == q then NUL else q) else if s[0] == '"' || s[0] == '\'' then s[0] else NUL by {
        assert QuoteOpen(s, 0, q) == q;
      }
    }
  }

  // ---------------------------------------------------------------- reading an artifact off the document

  /** s starts with the open tag "<" + name + attrs + ">". */
  predicate OpensWith(s: string, name: string, attrs: string) {
    var n := |name| + |attrs| + 2;
    n <= |s| && s[..n] == "<" + name + attrs + ">" && FirstFree(s[1..], NUL, n - 1)
  }

  /** "/" with nothing but white space behind it. */
  predicate EndsInSlash(attrs: string) {
    exists k :: 0 <= k < |attrs| && attrs[k] == '/' && forall j :: k < j < |attrs| ==> TextIndex.IsJsWs(attrs[j])
  }

  /** An element without content: an image, a frame, or one that closes itself. */
  predicate NoContent(tag: string, attrs: string) {
    tag == "img" || tag == "iframe" || EndsInSlash(attrs)
  }

  /** m is the inner HTML behind the open tag: up to the close tag at which opens minus closes reaches zero,
      taken to be as long as "</" + tag + ">", and nothing where none does. */
  predicate IsContent(rest: string, tag: string, m: string)
    requires tag != ""
  {
    var ts := Tokens(rest, tag);
    || (NeverZero(ts, 1) && m == "")
    || exists k: nat :: k < |ts| && FirstZero(ts, 1, k) && |m| + |tag| + 3 == ts[k].end <= |rest| && m == rest[..|m|]
  }

  predicate PartAt(s: string, i: int, part: string) {
    0 <= i && i + |part| <= |s| && s[i..i + |part|] == part
  }

  predicate Mentions(s: string, part: string) {
    exists i :: 0 <= i <= |s| && PartAt(s, i, part)
  }

  /** The artifact at p reads tag, attrs and m, with no identity in them yet: its open tag is "<" + name + attrs
      + ">", where name spells the tag in any case, and its inner HTML is m. */
  ghost predicate Reads(html: string, p: nat, tag: string, attrs: string, m: string) {
    IsArtifact(html, p) && StartsReading(html[p..], tag, attrs, m)
  }

  /** s starts with such an artifact. */
  ghost predicate StartsReading(s: string, tag: string, attrs: string, m: string) {
    && ElementAt(s).Some? && tag == ElementAt(s).value.tag
    && (exists name :: Spells(s, name, tag, attrs))
    && HasContent(s, Element(tag, |tag| + |attrs| + 2, attrs), m)
    && !Mentions(attrs, "data-odoc-aid") && !Mentions(m, "data-odoc-aid")
  }

  predicate HasContent(s: string, e: Element, m: string) {
    e.tag != "" && e.len <= |s| && if NoContent(e.tag, e.attrs) then m == "" else IsContent(s[e.len..], e.tag, m)
  }

  predicate Spells(s: string, name: string, tag: string, attrs: string) {
    |name| == |tag| && LowerAll(name) == tag && OpensWith(s, name, attrs)
  }

  lemma {:induction false} SelfClosesExactly(attrs: string)
    ensures SelfCloses(attrs) <==> EndsInSlash(attrs)
  {
    if attrs != "" {
      var f, c := attrs[..|attrs| - 1], attrs[|attrs| - 1];
      if TextIndex.IsJsWs(c) {
        SelfClosesExactly(f);
        assert c != '/';
        if EndsInSlash(f) {
          var k :| 0 <= k < |f| && f[k] == '/' && forall j :: k < j < |f| ==> TextIndex.IsJsWs(f[j]);
          assert attrs[k] == '/';
        }
        if EndsInSlash(attrs) {
          var k :| 0 <= k < |attrs| && attrs[k] == '/' && forall j :: k < j < |attrs| ==> TextIndex.IsJsWs(attrs[j]);
          assert f[k] == '/';
        }
      } else if c == '/' {
        assert attrs[|attrs| - 1] == '/';
      }
    }
  }

  lemma LowerTwice(name: string)
    ensures LowerAll(LowerAll(name)) == LowerAll(name)
  {
  }

  lemma Unmentioned(s: string)
    requires !Mentions(s, "data-odoc-aid")
    ensures NoAids(s)
  {
    forall i | 0 <= i <= |s| ensures !StartsWith(s[i..], AID_ATTR) {
      if StartsWith(s[i..], AID_ATTR) {
        assert s[i..][..|AID_ATTR|] == s[i..i + |AID_ATTR|];
        assert PartAt(s, i, "data-odoc-aid");
      }
    }
  }

  lemma ContentExact(rest: string, tag: string, m: string)
    requires tag != "" && IsContent(rest, tag, m)
    ensures var close := Close(rest, tag, 1);
      m == if close.None? then "" else rest[..close.value - (|tag| + 3)]
  {
    hide Tokens, Close;
    var ts := Tokens(rest, tag);
    CloseIsFirstZero(rest, tag, 1);
    ZeroOnce(ts, 1);
  }

  lemma ZeroOnce(ts: seq<Token>, depth: nat)
    ensures forall j: nat, k: nat :: FirstZero(ts, depth, j) && FirstZero(ts, depth, k) ==> j == k
    ensures forall k: nat :: FirstZero(ts, depth, k) ==> !NeverZero(ts, depth)
  {
  }

  lemma ReadsOpen(s: string, name: string, tag: string, attrs: string)
    requires ElementAt(s).Some? && ElementAt(s).value.tag == tag && |name| == |tag| && OpensWith(s, name, attrs)
    ensures ElementAt(s) == Some(Element(tag, |tag| + |attrs| + 2, attrs))
  {
    hide FirstFree, ScanEnd, TagAt, ElementAt;
    var n := |tag| + |attrs| + 2;
    ScanEndExact(s[1..], NUL, n - 1);
    assert ElementAt(s).value.len == n;
    MiddleOf(s, name, attrs);
  }

  lemma MiddleOf(s: string, name: string, attrs: string)
    requires var n := |name| + |attrs| + 2; n <= |s| && s[..n] == "<" + name + attrs + ">"
    ensures s[|name| + 1..|name| + |attrs| + 1] == attrs
  {
    var n := |name| + |attrs| + 2;
    var a := s[|name| + 1..n - 1];
    forall k | 0 <= k < |attrs| ensures a[k] == attrs[k] {
      assert a[k] == s[..n][|name| + 1 + k] == ("<" + name + attrs + ">")[|name| + 1 + k];
    }
  }

  lemma VoidExact(name: string, e: Element)
    requires LowerAll(name) == e.tag
    ensures IsVoid(e) <==> NoContent(e.tag, e.attrs)
    ensures SelfCloses(e.attrs) <==> EndsInSlash(e.attrs)
  {
    hide LowerAll, SelfCloses, EndsInSlash;
    LowerTwice(name);
    SelfClosesExactly(e.attrs);
  }

  lemma InnerExact(s: string, e: Element, m: string)
    requires HasContent(s, e, m) && (IsVoid(e) <==> NoContent(e.tag, e.attrs))
    ensures Inner(s, e) == m
  {
    hide IsVoid, NoContent, IsContent, Close;
    if !NoContent(e.tag, e.attrs) {
      ContentExact(s[e.len..], e.tag, m);
    }
  }

  lemma StartsOpen(s: string, tag: string, attrs: string, m: string)
    requires StartsReading(s, tag, attrs, m)
    ensures var e := Element(tag, |tag| + |attrs| + 2, attrs);
      ElementAt(s) == Some(e) && (IsVoid(e) <==> NoContent(tag, attrs)) && (SelfCloses(attrs) <==> EndsInSlash(attrs))
  {
    hide ElementAt, HasContent, EndsInSlash, SelfCloses, LowerAll, OpensWith, Mentions, NoContent, IsVoid;
    var name :| Spells(s, name, tag, attrs);
    ReadsOpen(s, name, tag, attrs);
    VoidExact(name, Element(tag, |tag| + |attrs| + 2, attrs));
  }

  /** What the scanner makes of such an artifact. */
  lemma StartsElement(s: string, tag: string, attrs: string, m: string)
    requires StartsReading(s, tag, attrs, m)
    ensures var e := Element(tag, |tag| + |attrs| + 2, attrs);
      && ElementAt(s) == Some(e) && (SelfCloses(attrs) <==> EndsInSlash(attrs)) && Inner(s, e) == m
  {
    hide ElementAt, HasContent, EndsInSlash, SelfCloses, Spells, Mentions, NoContent, IsVoid, Inner;
    StartsOpen(s, tag, attrs, m);
    InnerExact(s, Element(tag, |tag| + |attrs| + 2, attrs), m);
  }

  /** The identity of an artifact that reads tag, attrs and m is the hash of these three, and of nothing else. */
  lemma IdentityExact(hash: Hash, html: string, p: nat, tag: string, attrs: string, m: string)
    requires Reads(html, p, tag, attrs, m)
    ensures AidOf(hash, html[p..], ElementAt(html[p..]).value) == hash(tag, m, attrs)
  {
    hide ElementAt, Inner, Strip, IsVoid;
    StartsElement(html[p..], tag, attrs, m);
    Unmentioned(attrs);
    Unmentioned(m);
    StripNothing(attrs, true);
    StripNothing(m, false);
  }

  /** Its new open tag is the old one with the identity at its end, and the slash of an empty element behind it. */
  lemma OpenExact(hash: Hash, html: string, p: nat, tag: string, attrs: string, m: string)
    requires Reads(html, p, tag, attrs, m)
    ensures PatchAt(hash, html, p) ==
      Patch(p, p + |tag| + |attrs| + 2,
            "<" + tag + attrs + (" data-odoc-aid=\"" + hash(tag, m, attrs) + "\"")
            + (if EndsInSlash(attrs) then "/" else "") + ">")
  {
    hide ElementAt, Inner, Strip, AidOf, EndsInSlash, SelfCloses, LowerAll;
    IdentityExact(hash, html, p, tag, attrs, m);
    StartsElement(html[p..], tag, attrs, m);
    Unmentioned(attrs);
    StripNothing(attrs, true);
  }

  // ---------------------------------------------------------------- every artifact reads so

  lemma LowerNames(tag: string)
    requires tag in STAMPABLE
    ensures LowerAll(tag) == tag
  {
    hide LowerAll;
    assert IsLower(tag);
    assert LowerAll(tag) == tag;
  }

  predicate IsLower(tag: string) {
    forall k :: 0 <= k < |tag| ==> !('A' <= tag[k] <= 'Z')
  }

  lemma NameSpelled(s: string, tag: string)
    requires OpenAt(s, tag) && LowerAll(tag) == tag
    ensures LowerAll(s[1..|tag| + 1]) == tag
  {
    var low := LowerAll(s[1..|tag| + 1]);
    assert forall k :: 0 <= k < |tag| ==> low[k] == Lower(s[1..][k]) && Lower(tag[k]) == LowerAll(tag)[k];
  }

  lemma TagSpelled(s: string)
    requires TagAt(s).Some?
    ensures var tag := TagAt(s).value; LowerAll(s[1..|tag| + 1]) == tag
  {
    hide FirstOpen, OpenAt, LowerAll;
    if Stampable(s) {
      FirstOpenHas(s, STAMPABLE);
      LowerNames(TagAt(s).value);
      NameSpelled(s, TagAt(s).value);
    }
  }

  lemma OpenSpelled(s: string)
    requires ElementAt(s).Some?
    ensures var e := ElementAt(s).value; Spells(s, s[1..|e.tag| + 1], e.tag, e.attrs)
  {
    hide ElementAt, TagAt, LowerAll, ScanEnd, FirstFree;
    var e := ElementAt(s).value;
    TagSpelled(s);
    ScanEndExact(s[1..], NUL, e.len - 1);
    assert s[..e.len] == "<" + s[1..|e.tag| + 1] + e.attrs + ">";
  }

  lemma ContentFound(rest: string, tag: string) returns (m: string)
    requires tag != ""
    ensures IsContent(rest, tag, m)
  {
    hide Tokens, Close;
    CloseIsFirstZero(rest, tag, 1);
    var close := Close(rest, tag, 1);
    if close.None? {
      m := "";
    } else {
      m := rest[..close.value - (|tag| + 3)];
      assert m == rest[..|m|];
    }
  }

  lemma SliceOfSlice(s: string, i: int, j: int, k: int, l: int)
    requires 0 <= i <= j <= |s| && 0 <= k <= l <= j - i
    ensures s[i..j][k..l] == s[i + k..i + l]
  {
    var a, b := s[i..j][k..l], s[i + k..i + l];
    assert |a| == |b| && forall x :: 0 <= x < |a| ==> a[x] == s[i + k + x] == b[x];
  }

  lemma PartMentions(s: string, i: nat, j: nat, part: string)
    requires i <= j <= |s| && Mentions(s[i..j], part)
    ensures Mentions(s, part)
  {
    var k :| 0 <= k <= j - i && PartAt(s[i..j], k, part);
    SliceOfSlice(s, i, j, k, k + |part|);
    assert PartAt(s, i + k, part);
  }

  lemma ContentInside(rest: string, tag: string, m: string)
    requires tag != "" && IsContent(rest, tag, m)
    ensures |m| <= |rest| && m == rest[..|m|]
  {
    hide Tokens;
  }

  /** Every artifact of a document without identities reads a tag, attributes and an inner HTML. */
  lemma EveryArtifactReads(html: string, p: nat) returns (tag: string, attrs: string, m: string)
    requires IsArtifact(html, p) && !Mentions(html, "data-odoc-aid")
    ensures Reads(html, p, tag, attrs, m)
  {
    hide ElementAt, IsContent, NoContent, Spells, Mentions;
    var s, e := html[p..], ElementAt(html[p..]).value;
    OpenSpelled(s);
    tag, attrs := e.tag, e.attrs;
    var q := p + |tag| + 1;
    assert attrs == html[q..p + e.len - 1];
    var n := |tag| + |attrs| + 2;
    m := "";
    if !NoContent(tag, attrs) {
      m := ContentFound(s[n..], tag);
      ContentInside(s[n..], tag, m);
      assert m == html[p + n..p + n + |m|];
    } else {
      assert m == html[p..p];
    }
    if Mentions(attrs, "data-odoc-aid") {
      PartMentions(html, q, p + e.len - 1, "data-odoc-aid");
    }
    if Mentions(m, "data-odoc-aid") {
      if NoContent(tag, attrs) {
        PartMentions(html, p, p, "data-odoc-aid");
      } else {
        PartMentions(html, p + n, p + n + |m|, "data-odoc-aid");
      }
    }
  }

  // ---------------------------------------------------------------- what stamping makes of it

  /** What the index must say of the artifact at p: its tag, the hash of what it reads, and the first 80
      characters of its inner HTML. */
  ghost predicate IndexReads(hash: Hash, html: string, p: nat, tag: string, aid: string, head: string) {
    forall name, attrs, m :: Reads(html, p, name, attrs, m) ==>
      tag == name && aid == hash(name, m, attrs) && head == if |m| <= 80 then m else m[..80]
  }

  /** What must replace the open tag of the artifact at p: itself with the identity at its end, and the slash of
      an element that closes itself behind it. */
  ghost predicate PatchReads(hash: Hash, html: string, p: nat, patch: Patch) {
    forall tag, attrs, m :: Reads(html, p, tag, attrs, m) ==>
      patch == Patch(p, p + |tag| + |attrs| + 2,
                     "<" + tag + attrs + (" data-odoc-aid=\"" + hash(tag, m, attrs) + "\"")
                     + (if EndsInSlash(attrs) then "/" else "") + ">")
  }

  lemma PatchesRead(hash: Hash, html: string, starts: seq<nat>)
    requires forall p :: p in starts ==> IsArtifact(html, p)
    ensures forall i :: 0 <= i < |starts| ==> PatchReads(hash, html, starts[i], Patches(hash, html, starts)[i])
  {
    hide Reads, IsArtifact, PatchAt, Patches, EndsInSlash;
    PatchesAre(hash, html, starts);
    forall i | 0 <= i < |starts| ensures PatchReads(hash, html, starts[i], Patches(hash, html, starts)[i]) {
      PatchRead(hash, html, starts[i]);
    }
  }

  lemma PatchRead(hash: Hash, html: string, p: nat)
    requires IsArtifact(html, p)
    ensures PatchReads(hash, html, p, PatchAt(hash, html, p))
  {
    hide Reads, IsArtifact, PatchAt, EndsInSlash;
    forall tag, attrs, m | Reads(html, p, tag, attrs, m)
      ensures PatchAt(hash, html, p) == Patch(p, p + |tag| + |attrs| + 2,
                     "<" + tag + attrs + (" data-odoc-aid=\"" + hash(tag, m, attrs) + "\"")
                     + (if EndsInSlash(attrs) then "/" else "") + ">")
    {
      OpenExact(hash, html, p, tag, attrs, m);
    }
  }

  lemma IndexRead(hash: Hash, html: string, p: nat)
    requires IsArtifact(html, p)
    ensures var s, e := html[p..], ElementAt(html[p..]).value;
      var m := Inner(s, e);
      IndexReads(hash, html, p, e.tag, AidOf(hash, s, e), if |m| <= 80 then m else m[..80])
  {
    hide ElementAt, AidOf, Inner, EndsInSlash, HasContent;
    var s, e := html[p..], ElementAt(html[p..]).value;
    forall name, attrs, m | Reads(html, p, name, attrs, m)
      ensures e.tag == name && AidOf(hash, s, e) == hash(name, m, attrs) && Inner(s, e) == m
    {
      IdentityExact(hash, html, p, name, attrs, m);
      StartsElement(s, name, attrs, m);
    }
  }

  /** Two artifacts of equal tag and inner HTML but different attributes are indexed under different identities by
      every hash that separates the two: images that differ in their source are told apart. */
  lemma AttributesTellApart(hash: Hash, html: string, p: nat, a: string, html': string, q: nat, b: string, tag: string,
                            m: string, x: (string, string, string), y: (string, string, string))
    requires Reads(html, p, tag, a, m) && Reads(html', q, tag, b, m) && hash(tag, m, a) != hash(tag, m, b)
    requires IndexReads(hash, html, p, x.0, x.1, x.2) && IndexReads(hash, html', q, y.0, y.1, y.2)
    ensures x.1 != y.1
  {
    hide Reads;
  }

  // ---------------------------------------------------------------- which tags are artifacts

  /** "<", a letter and name characters up to k, where a word ends or begins. */
  predicate NameEnds(s: string, k: nat) {
    && 2 <= k <= |s| && s[0] == '<' && IsLetter(s[1]) && BoundaryAt(s, k)
    && forall i :: 1 <= i < k ==> IsName(s[i])
  }

  predicate LongestName(s: string, k: nat) {
    NameEnds(s, k) && forall j: nat :: k < j <= |s| ==> !NameEnds(s, j)
  }

  lemma {:induction false} BackOffLongest(s: string, n: nat)
    requires n <= |s|
    ensures forall j :: BackOff(s, n) < j <= n ==> !BoundaryAt(s, j)
  {
    if n > 0 && !BoundaryAt(s, n) {
      BackOffLongest(s, n - 1);
    }
  }

  lemma ProbeLongest(s: string)
    ensures if ProbeAt(s) > 0 then LongestName(s, ProbeAt(s)) else forall k: nat :: !NameEnds(s, k)
  {
    if |s| >= 2 && s[0] == '<' && IsLetter(s[1]) {
      BackOffLongest(s, NameRun(s, 1));
    }
  }

  predicate OpensOneOf(s: string, names: seq<string>) {
    exists t :: t in names && OpenAt(s, t)
  }

  /** The open tag's name is followed by attributes that hold a marker. */
  predicate OptsIn(s: string, n: nat)
    requires n <= |s|
  {
    exists k: nat :: k <= n && LongestName(s, k) && Marked(s[k..n])
  }

  lemma StampableExactly(s: string)
    ensures Stampable(s) <==> OpensOneOf(s, STAMPABLE)
  {
    hide OpenAt;
    FirstOpenHas(s, STAMPABLE);
  }

  lemma OptsInExactly(s: string, n: nat)
    requires n <= |s|
    ensures OptsIn(s, n) <==> 0 < ProbeAt(s) <= n && Marked(s[ProbeAt(s)..n])
  {
    hide Marked, ProbeAt, NameEnds;
    ProbeLongest(s);
    if k: nat :| k <= n && LongestName(s, k) && Marked(s[k..n]) {
      LongestUnique(s, k, ProbeAt(s));
    }
  }

  lemma LongestUnique(s: string, j: nat, k: nat)
    requires LongestName(s, j)
    ensures LongestName(s, k) ==> j == k
    ensures NameEnds(s, j) && j > 0
  {
  }

  lemma ElementExactly(s: string, n: nat)
    requires s != "" && ScanEnd(s[1..], NUL) == Some(n)
    ensures ElementAt(s).Some? <==> OpensOneOf(s, STAMPABLE) || OptsIn(s, n)
  {
    hide Marked, ProbeAt, OptsIn, OpensOneOf, OpenAt, FirstOpen, ScanEnd;
    StampableExactly(s);
    OptsInExactly(s, n);
    if TagAt(s).Some? {
      NameIsShort(s);
    }
  }

  /** An artifact is an open tag that ends, at the first ">" outside quotes, and that is of one of twelve names, or
      of any name if its attributes hold a marker. */
  lemma ArtifactExactly(html: string, p: nat)
    requires p < |html|
    ensures IsArtifact(html, p) <==>
      exists n: nat :: FirstFree(html[p..][1..], NUL, n)
        && (OpensOneOf(html[p..], ["img", "svg", "canvas", "video", "pre", "figure", "iframe", "section", "aside",
                                   "blockquote", "table", "details"])
            || OptsIn(html[p..], n))
  {
    hide ElementAt, OpensOneOf, OptsIn, FirstFree, ScanEnd;
    var s := html[p..];
    forall n: nat ensures ScanEnd(s[1..], NUL) == Some(n) <==> FirstFree(s[1..], NUL, n) {
      ScanEndExact(s[1..], NUL, n);
    }
    var end := ScanEnd(s[1..], NUL);
    if end.Some? {
      ElementExactly(s, end.value);
    }
  }
}
