/** When stamping is idempotent: on documents whose tags do not run into each other, a second pass over the
    stamped document gives the same bytes exactly when all artifacts' attributes are bare at their end. */
module StampTwice {
  import opened CommentTypes
  import opened StampScan
  import opened TextPrefix
  import opened Stamper
  import opened StampWeave
  import opened StampLaws
  import TextIndex

  /** The hash returns letters and digits. */
  ghost predicate HashIsPlain(hash: Hash) {
    forall tag, inner, attrs :: PlainAid(hash(tag, inner, attrs))
  }

  predicate HasOpenTag(html: string, r: nat) {
    r < |html| && TagAt(html[r..]).Some? && OpenEnd(html[r..]).Some?
  }

  function OpenTagEnd(html: string, r: nat): nat
    requires HasOpenTag(html, r)
  {
    r + OpenEnd(html[r..]).value
  }

  predicate HasCloseTag(html: string, r: nat, tag: string) {
    r < |html| && CloseAt(html[r..], tag).Some?
  }

  function CloseTagEnd(html: string, r: nat, tag: string): nat
    requires HasCloseTag(html, r, tag)
  {
    r + CloseAt(html[r..], tag).value
  }

  /** No artifact's open tag ends inside another tag. */
  ghost predicate Untangled(html: string) {
    && (forall q: nat, r: nat :: IsArtifact(html, q) && HasOpenTag(html, r) && r != q ==>
          !(r < EndAt(html, q) <= OpenTagEnd(html, r)))
    && (forall q: nat, r: nat, tag :: IsArtifact(html, q) && TagName(tag) && HasCloseTag(html, r, tag) ==>
          EndAt(html, q) != CloseTagEnd(html, r, tag))
  }

  /** The tag name stands in lower case. */
  predicate LowerName(s: string, e: Element) {
    |e.tag| + 1 <= |s| && s[1..|e.tag| + 1] == e.tag
  }

  /** The documents considered: tags that do not run into each other, no identities yet, lower-case names. */
  ghost predicate Readable(html: string) {
    && Untangled(html) && NoAids(html)
    && forall p: nat :: IsArtifact(html, p) ==> LowerName(html[p..], ElementAt(html[p..]).value)
  }

  /** Attributes that end in neither white space nor a slash. */
  predicate Bare(attrs: string) {
    attrs != "" ==> !TextIndex.IsJsWs(attrs[|attrs| - 1]) && attrs[|attrs| - 1] != '/'
  }

  predicate BareAt(html: string, p: nat)
    requires IsArtifact(html, p)
  {
    Bare(ElementAt(html[p..]).value.attrs)
  }

  ghost predicate AllBare(html: string) {
    forall p: nat :: IsArtifact(html, p) ==> BareAt(html, p)
  }

  // ---------------------------------------------------------------- the cells of a stamped document

  function IdentityAt(hash: Hash, html: string, q: nat): string
    requires IsArtifact(html, q)
  {
    AidOf(hash, html[q..], ElementAt(html[q..]).value)
  }

  /** What stamping puts before the ">" of an artifact. */
  function InsetAt(hash: Hash, html: string, q: nat): string
    requires IsArtifact(html, q)
  {
    Inset(IdentityAt(hash, html, q), SelfCloses(ElementAt(html[q..]).value.attrs))
  }

  /** The artifact whose open tag ends with character i. */
  predicate EndsWith(html: string, q: nat, i: nat) {
    IsArtifact(html, q) && EndAt(html, q) == i + 1
  }

  ghost function PreAt(hash: Hash, html: string, i: nat): string {
    if exists q: nat :: EndsWith(html, q, i) then
      var q: nat :| EndsWith(html, q, i);
      InsetAt(hash, html, q)
    else ""
  }

  ghost function Cells(hash: Hash, html: string): seq<Cell> {
    seq(|html|, i requires 0 <= i < |html| => Cell(PreAt(hash, html, i), html[i]))
  }

  lemma ArtifactIsTag(html: string, q: nat)
    requires IsArtifact(html, q)
    ensures HasOpenTag(html, q) && OpenTagEnd(html, q) == EndAt(html, q) && html[EndAt(html, q) - 1] == '>'
    ensures html[q] == '<'
  {
    hide TagAt, OpenEnd, ElementAt;
  }

  lemma EndsUnique(html: string, q: nat, r: nat, i: nat)
    requires Untangled(html) && EndsWith(html, q, i) && EndsWith(html, r, i)
    ensures q == r
  {
    hide IsArtifact, EndAt, HasOpenTag, OpenTagEnd, HasCloseTag, CloseTagEnd;
    ArtifactIsTag(html, r);
    ArtifactAdvances(html, r);
  }

  lemma ArtifactAdvances(html: string, q: nat)
    requires IsArtifact(html, q)
    ensures q + 1 < EndAt(html, q)
  {
    hide ElementAt, OpenEnd;
  }

  lemma PreOfArtifact(hash: Hash, html: string, q: nat)
    requires Untangled(html) && IsArtifact(html, q)
    ensures PreAt(hash, html, EndAt(html, q) - 1) == InsetAt(hash, html, q)
  {
    hide IsArtifact, EndAt, Untangled, InsetAt;
    var i := EndAt(html, q) - 1;
    assert EndsWith(html, q, i);
    forall r: nat | EndsWith(html, r, i) ensures r == q {
      EndsUnique(html, q, r, i);
    }
  }

  lemma PlainCells(hash: Hash, html: string)
    ensures Plain(Cells(hash, html)) == html
  {
    PlainAt(Cells(hash, html));
  }

  lemma CellsWellPlaced(hash: Hash, html: string)
    requires HashIsPlain(hash)
    ensures WellPlaced(Cells(hash, html))
  {
    hide IsArtifact, EndAt, IdentityAt, InsetAt, IsInset;
    forall i: nat | i < |html| && PreAt(hash, html, i) != "" ensures html[i] == '>' && IsInset(PreAt(hash, html, i)) {
      var q: nat :| EndsWith(html, q, i) && PreAt(hash, html, i) == InsetAt(hash, html, q);
      ArtifactIsTag(html, q);
      InsetIsInset(hash, html, q);
    }
  }

  /** Where all attributes are bare no tag closes itself. */
  lemma CellsNoSlashes(hash: Hash, html: string)
    requires HashIsPlain(hash) && AllBare(html)
    ensures NoSlashes(Cells(hash, html))
  {
    hide IsArtifact, EndAt, InsetAt, IsStamp, HashIsPlain, BareAt;
    forall i: nat | i < |html| && PreAt(hash, html, i) != "" ensures IsStamp(PreAt(hash, html, i)) {
      var q: nat :| EndsWith(html, q, i) && PreAt(hash, html, i) == InsetAt(hash, html, q);
      InsetIsStamp(hash, html, q);
    }
  }

  lemma InsetIsStamp(hash: Hash, html: string, q: nat)
    requires HashIsPlain(hash) && IsArtifact(html, q) && BareAt(html, q)
    ensures IsStamp(InsetAt(hash, html, q))
  {
    hide PlainAid, HashIsPlain, SelfCloses, IdentityAt, Bare, ElementAt;
    IdentityIsPlain(hash, html, q);
    BareNotSelfClosing(ElementAt(html[q..]).value.attrs);
  }

  lemma BareNotSelfClosing(attrs: string)
    requires Bare(attrs)
    ensures !SelfCloses(attrs)
  {
  }

  lemma IdentityIsPlain(hash: Hash, html: string, q: nat)
    requires HashIsPlain(hash) && IsArtifact(html, q)
    ensures PlainAid(IdentityAt(hash, html, q))
  {
    hide HashIsPlain, PlainAid, ElementAt;
    AidIsPlain(hash, html[q..], ElementAt(html[q..]).value);
  }

  lemma AidIsPlain(hash: Hash, s: string, e: Element)
    requires HashIsPlain(hash) && e.tag != "" && e.len <= |s|
    ensures PlainAid(AidOf(hash, s, e))
  {
    hide Strip, Inner, PlainAid;
  }

  lemma InsetIsInset(hash: Hash, html: string, q: nat)
    requires HashIsPlain(hash) && IsArtifact(html, q)
    ensures IsInset(InsetAt(hash, html, q))
  {
    hide PlainAid, Inset, SelfCloses, HashIsPlain;
    IdentityIsPlain(hash, html, q);
  }

  lemma CellsClean(hash: Hash, html: string)
    requires Untangled(html)
    ensures CleanCloses(Cells(hash, html))
  {
    hide IsArtifact, EndAt, InsetAt, CloseAt, HasOpenTag, OpenTagEnd;
    var cs := Cells(hash, html);
    PlainCells(hash, html);
    forall k: nat, tag | k < |cs| && TagName(tag) ensures CleanClose(cs[k..], tag) {
      PlainPart(cs, k);
      if CloseAt(html[k..], tag).Some? {
        var i := CloseTagEnd(html, k, tag) - 1;
        forall q: nat ensures !EndsWith(html, q, i) {
          assert HasCloseTag(html, k, tag);
        }
        assert cs[k..][i - k] == cs[i];
      }
    }
  }

  // ---------------------------------------------------------------- positions outside open tags

  /** No artifact's open tag reaches past p from before p. */
  predicate Outside(html: string, p: nat) {
    forall q: nat :: q < p && IsArtifact(html, q) ==> EndAt(html, q) <= p
  }

  lemma NothingInside(html: string, p: nat, q: nat)
    requires Untangled(html) && IsArtifact(html, p) && IsArtifact(html, q) && p < q
    ensures EndAt(html, p) <= q
  {
    hide IsArtifact, EndAt, HasCloseTag, CloseTagEnd, HasOpenTag, OpenTagEnd;
    ArtifactIsTag(html, p);
    ArtifactIsTag(html, q);
    ArtifactAdvances(html, q);
  }

  lemma UntangledIsApart(html: string)
    requires Untangled(html)
    ensures Apart(html)
  {
    hide IsArtifact, EndAt, Untangled;
    forall p: nat, q: nat | p < q < |html| && IsArtifact(html, p) && IsArtifact(html, q) ensures EndAt(html, p) <= q {
      NothingInside(html, p, q);
    }
  }

  lemma OutsideNext(html: string, p: nat)
    requires Outside(html, p) && !IsArtifact(html, p)
    ensures Outside(html, p + 1)
  {
    hide IsArtifact, EndAt;
  }

  lemma OutsideEnd(html: string, p: nat)
    requires Untangled(html) && Outside(html, p) && IsArtifact(html, p)
    ensures Outside(html, EndAt(html, p))
  {
    hide IsArtifact, EndAt, Untangled;
    forall q: nat | q < EndAt(html, p) && IsArtifact(html, q) ensures EndAt(html, q) <= EndAt(html, p) {
      if q > p {
        NothingInside(html, p, q);
      } else if q < p {
        ArtifactAdvances(html, p);
      }
    }
  }

  lemma NoPreOutside(hash: Hash, html: string, p: nat)
    requires Outside(html, p) && p < |html| && !IsArtifact(html, p)
    ensures PreAt(hash, html, p) == ""
  {
    hide IsArtifact, EndAt, InsetAt;
    forall q: nat ensures !EndsWith(html, q, p) {
      if EndsWith(html, q, p) {
        ArtifactAdvances(html, q);
        assert false;
      }
    }
  }

  /** Only the last character of an artifact's open tag has something before it; no other tag has. */
  lemma NoPreInTag(hash: Hash, html: string, r: nat, i: nat)
    requires Untangled(html) && HasOpenTag(html, r) && r <= i < OpenTagEnd(html, r)
    requires IsArtifact(html, r) ==> i < EndAt(html, r) - 1
    ensures PreAt(hash, html, i) == ""
  {
    hide IsArtifact, EndAt, InsetAt, HasOpenTag, OpenTagEnd, HasCloseTag, CloseTagEnd;
    forall q: nat ensures !EndsWith(html, q, i) {
    }
  }

  /** The cells of an artifact's open tag. */
  lemma ArtifactCells(hash: Hash, html: string, p: nat)
    requires HashIsPlain(hash) && Untangled(html) && IsArtifact(html, p)
    ensures StampedTag(Cells(hash, html)[p..], EndAt(html, p) - p, InsetAt(hash, html, p))
  {
    hide IsArtifact, EndAt, InsetAt, IsInset, Untangled, HashIsPlain, HasOpenTag, OpenTagEnd, PreAt;
    var cs, n := Cells(hash, html), EndAt(html, p) - p;
    ArtifactIsTag(html, p);
    ArtifactAdvances(html, p);
    PreOfArtifact(hash, html, p);
    InsetIsInset(hash, html, p);
    assert cs[p..][n - 1] == cs[EndAt(html, p) - 1];
    forall k | 0 <= k < n - 1 ensures cs[p..][k].pre == "" {
      NoPreInTag(hash, html, p, p + k);
    }
  }

  // ---------------------------------------------------------------- the first pass

  /** The stamped open tag is the old one with the inset before its ">". */
  lemma StampedOpenIs(hash: Hash, s: string, e: Element)
    requires ElementAt(s) == Some(e) && LowerName(s, e) && NoAids(e.attrs)
    ensures e.len <= |s|
    ensures StampedOpen(hash, s, e) == s[..e.len - 1] + Inset(AidOf(hash, s, e), SelfCloses(e.attrs)) + ">"
  {
    hide ElementAt, AidOf, Stamp, Strip, NoAids, SelfCloses;
    StripNothing(e.attrs, true);
    OpenIs(s, e);
    var stamp, slash := Stamp(AidOf(hash, s, e)), if SelfCloses(e.attrs) then "/" else "";
    assert Inset(AidOf(hash, s, e), SelfCloses(e.attrs)) == stamp + slash;
    assert ("<" + e.tag + e.attrs) + stamp + slash + ">" == ("<" + e.tag + e.attrs) + (stamp + slash) + ">";
  }

  lemma OpenIs(s: string, e: Element)
    requires ElementAt(s) == Some(e) && LowerName(s, e)
    ensures e.len <= |s| && s[..e.len - 1] == "<" + e.tag + e.attrs
  {
    hide ElementAt;
    NameIsShort(s);
    var k := |e.tag| + 1;
    assert s[..e.len - 1] == s[..1] + s[1..k] + s[k..e.len - 1];
    assert s[..1] == "<";
  }

  lemma AttrsNoAids(html: string, p: nat)
    requires NoAids(html) && IsArtifact(html, p)
    ensures NoAids(ElementAt(html[p..]).value.attrs) && NoAids(html[p..])
  {
    hide NoAids, ElementAt, OpenEnd, TagAt;
    var e := ElementAt(html[p..]).value;
    NoAidsPart(html, p, |html|);
    assert html[p..|html|] == html[p..];
    NoAidsPart(html[p..], |e.tag| + 1, e.len - 1);
  }

  lemma ReadableParts(html: string, p: nat)
    requires Readable(html) && IsArtifact(html, p)
    ensures Untangled(html) && NoAids(html) && LowerName(html[p..], ElementAt(html[p..]).value)
  {
    hide Untangled, NoAids, LowerName, IsArtifact;
  }

  /** From an artifact on: its element, its identity, and what the cells there are like. */
  ghost predicate AtArtifact(hash: Hash, cs: seq<Cell>, s: string, e: Element, w: string) {
    && WellPlaced(cs) && CleanCloses(cs) && cs != [] && Plain(cs) == s && StampedTag(cs, e.len, w)
    && ElementAt(s) == Some(e) && LowerName(s, e) && NoAids(s) && NoAids(e.attrs)
    && PlainAid(AidOf(hash, s, e)) && w == Inset(AidOf(hash, s, e), SelfCloses(e.attrs))
  }

  lemma CellsFrom(hash: Hash, html: string, p: nat)
    requires HashIsPlain(hash) && Untangled(html) && p < |html|
    ensures |Cells(hash, html)| == |html|
    ensures WellPlaced(Cells(hash, html)[p..]) && CleanCloses(Cells(hash, html)[p..])
    ensures Plain(Cells(hash, html)[p..]) == html[p..]
  {
    hide HashIsPlain, Untangled, WellPlaced, CleanCloses, Plain, Cells;
    CellsLength(hash, html);
    CellsWellPlaced(hash, html);
    CellsClean(hash, html);
    PlainCells(hash, html);
    PlainPart(Cells(hash, html), p);
    WellPlacedRest(Cells(hash, html), p);
    CleanRest(Cells(hash, html), p);
  }

  lemma ArtifactHere(hash: Hash, html: string, p: nat, e: Element, w: string)
    requires HashIsPlain(hash) && Readable(html) && IsArtifact(html, p)
    requires e == ElementAt(html[p..]).value && w == InsetAt(hash, html, p)
    ensures |Cells(hash, html)| == |html| && EndAt(html, p) == p + e.len
    ensures AtArtifact(hash, Cells(hash, html)[p..], html[p..], e, w)
  {
    hide HashIsPlain, Untangled, WellPlaced, CleanCloses, Plain, Cells, Readable, NoAids, LowerName, StampedTag, Inset,
         AidOf, PlainAid, ElementAt, SelfCloses;
    ReadableParts(html, p);
    CellsFrom(hash, html, p);
    AttrsNoAids(html, p);
    ArtifactCells(hash, html, p);
    IdentityIsPlain(hash, html, p);
  }

  /** The cells of an artifact's open tag read as its stamped open tag. */
  lemma WovenAfterTag(cs: seq<Cell>, n: nat, s: string, w: string)
    requires StampedTag(cs, n, w) && Plain(cs) == s
    ensures n <= |cs| && n <= |s| && Woven(cs) == (s[..n - 1] + w + ">") + Woven(cs[n..])
  {
    hide IsInset, Woven, Plain;
    StampedTagText(cs, n, w);
    OffSuffix(cs, n);
    var t := Woven(cs);
    assert t == t[..n + |w|] + t[n + |w|..];
  }

  lemma CellsLength(hash: Hash, html: string)
    ensures |Cells(hash, html)| == |html|
    ensures forall i :: 0 <= i < |html| ==> Cells(hash, html)[i] == Cell(PreAt(hash, html, i), html[i])
  {
  }

  lemma FirstArtifact(hash: Hash, html: string, p: nat)
    requires HashIsPlain(hash) && Readable(html) && IsArtifact(html, p)
    requires EndAt(html, p) <= |Cells(hash, html)|
    requires Rewrite(hash, html[EndAt(html, p)..]) == Woven(Cells(hash, html)[EndAt(html, p)..])
    ensures |Cells(hash, html)| == |html| && Rewrite(hash, html[p..]) == Woven(Cells(hash, html)[p..])
  {
    hide HashIsPlain, Readable, WellPlaced, CleanCloses, Plain, NoAids, LowerName, StampedTag, Rewrite, Woven, Cells,
         StampedOpen, Inset, AidOf, PlainAid, ElementAt, TagAt, OpenEnd, SelfCloses;
    var e, w := ElementAt(html[p..]).value, InsetAt(hash, html, p);
    ArtifactHere(hash, html, p, e, w);
    StampedOpenIs(hash, html[p..], e);
    WovenAfterTag(Cells(hash, html)[p..], e.len, html[p..], w);
    RewriteArtifact(hash, html, p);
    assert Cells(hash, html)[p..][e.len..] == Cells(hash, html)[EndAt(html, p)..];
  }

  /** One stamping is the woven text. */
  lemma {:induction false} FirstPass(hash: Hash, html: string, p: nat)
    requires HashIsPlain(hash) && Readable(html) && Outside(html, p) && p <= |html|
    ensures p <= |Cells(hash, html)| && Rewrite(hash, html[p..]) == Woven(Cells(hash, html)[p..])
    decreases |html| - p
  {
    hide HashIsPlain, NoAids, Outside, IsArtifact, EndAt, Rewrite, Cells, LowerName, PreAt, Untangled, Woven, ElementAt;
    var cs := Cells(hash, html);
    CellsLength(hash, html);
    if p == |html| {
      NothingLeft(hash, html, cs);
    } else if IsArtifact(html, p) {
      OutsideEnd(html, p);
      FirstPass(hash, html, EndAt(html, p));
      FirstArtifact(hash, html, p);
    } else {
      OutsideNext(html, p);
      FirstPass(hash, html, p + 1);
      RewriteOther(hash, html, p);
      NoPreOutside(hash, html, p);
      WovenFrom(cs, p);
    }
  }

  lemma NothingLeft(hash: Hash, html: string, cs: seq<Cell>)
    requires |cs| == |html|
    ensures Rewrite(hash, html[|html|..]) == "" && Woven(cs[|html|..]) == ""
  {
  }

  lemma WovenFrom(cs: seq<Cell>, p: nat)
    requires p < |cs| && cs[p].pre == ""
    ensures Woven(cs[p..]) == [cs[p].c] + Woven(cs[p + 1..])
  {
    assert cs[p..][1..] == cs[p + 1..];
    assert "" + ([cs[p].c] + Woven(cs[p + 1..])) == [cs[p].c] + Woven(cs[p + 1..]);
  }

  // ---------------------------------------------------------------- the second pass

  lemma TagIsName(s: string)
    requires TagAt(s).Some?
    ensures TagName(TagAt(s).value)
  {
    if Stampable(s) {
      FirstOpenHas(s, STAMPABLE);
      StampableLetters(TagAt(s).value);
    } else {
      assert forall k :: 1 <= k < ProbeAt(s) ==> IsName(s[k]);
      var tag := TagAt(s).value;
      assert forall k :: 0 <= k < |tag| ==> tag[k] == Lower(s[1..ProbeAt(s)][k]);
    }
  }

  /** The open tag the second pass writes at an artifact: the trunk of the attributes, the slash that the inset
      put among them, and a new inset. */
  lemma SecondOpenIs(hash: Hash, cs: seq<Cell>, s: string, e: Element, w: string)
    requires AtArtifact(hash, cs, s, e, w) && e.len + |w| <= |Woven(cs)|
    ensures var e2, slash := Element(e.tag, e.len + |w|, e.attrs + w), SelfCloses(e.attrs);
      StampedOpen(hash, Woven(cs), e2)
        == "<" + e.tag + (Trunk(e.attrs) + if slash then "/" else "") + Inset(AidOf(hash, Woven(cs), e2), slash) + ">"
  {
    hide WellPlaced, CleanCloses, NoAids, ElementAt, Strip, Woven, Plain, StampedTag, PlainAid, SelfCloses, AidOf,
         Inset, Trunk, StampedOpen, LowerName;
    var a, slash, e2 := AidOf(hash, s, e), SelfCloses(e.attrs), Element(e.tag, e.len + |w|, e.attrs + w);
    InsetCloses(e.attrs, a, slash);
    StripInset(e.attrs, a, slash);
    OpenAgain(hash, Woven(cs), e2, Trunk(e.attrs) + if slash then "/" else "", slash);
  }

  lemma OpenAgain(hash: Hash, s: string, e: Element, cleaned: string, slash: bool)
    requires e.tag != "" && e.len <= |s| && Strip(e.attrs, true) == cleaned && slash == SelfCloses(e.attrs)
    ensures StampedOpen(hash, s, e) == "<" + e.tag + cleaned + Inset(AidOf(hash, s, e), slash) + ">"
  {
    hide Strip, AidOf, SelfCloses, Stamp;
    var head, stamp := "<" + e.tag + cleaned, Stamp(AidOf(hash, s, e));
    assert head + stamp + "/" + ">" == head + (stamp + "/") + ">";
    assert head + stamp + "" + ">" == head + stamp + ">";
  }

  /** The identity is the same where the attributes are bare. */
  lemma SameIdentity(hash: Hash, cs: seq<Cell>, s: string, e: Element, w: string)
    requires AtArtifact(hash, cs, s, e, w) && NoSlashes(cs) && Bare(e.attrs) && e.len + |w| <= |Woven(cs)|
    ensures AidOf(hash, Woven(cs), Element(e.tag, e.len + |w|, e.attrs + w)) == AidOf(hash, s, e)
  {
    hide WellPlaced, NoSlashes, CleanCloses, NoAids, ElementAt, Inner, Strip, Woven, Plain, Inset, Solid, TagAt,
         OpenEnd, StampedTag, PlainAid, SelfCloses, LowerName, Bare, Trunk;
    TagIsName(s);
    BareNotSelfClosing(e.attrs);
    InsetCloses(e.attrs, AidOf(hash, s, e), false);
    SecondInner(cs, e, w);
    StripInset(e.attrs, AidOf(hash, s, e), false);
    BareIsTrunk(e.attrs);
    StripNothing(e.attrs, true);
    assert e.attrs + "" == e.attrs;
  }

  /** At an artifact with bare attributes the second pass writes what is there. */
  lemma SecondOpen(hash: Hash, cs: seq<Cell>, s: string, e: Element, w: string)
    requires AtArtifact(hash, cs, s, e, w) && NoSlashes(cs) && Bare(e.attrs)
    ensures e.len + |w| <= |Woven(cs)|
    ensures StampedOpen(hash, Woven(cs), Element(e.tag, e.len + |w|, e.attrs + w)) == Woven(cs)[..e.len + |w|]
  {
    hide WellPlaced, NoSlashes, CleanCloses, NoAids, ElementAt, Woven, Plain, Inset, StampedTag, PlainAid, SelfCloses,
         AidOf, LowerName, Bare, Trunk, StampedOpen;
    StampedTagText(cs, e.len, w);
    SameIdentity(hash, cs, s, e, w);
    SecondOpenIs(hash, cs, s, e, w);
    BareNotSelfClosing(e.attrs);
    BareIsTrunk(e.attrs);
    OpenIs(s, e);
    assert e.attrs + "" == e.attrs;
  }

  lemma BareIsTrunk(attrs: string)
    requires Bare(attrs)
    ensures Trunk(attrs) == attrs
  {
  }

  /** Elsewhere the second pass copies. */
  lemma SecondOther(hash: Hash, html: string, p: nat)
    requires HashIsPlain(hash) && Untangled(html) && p < |html| && !IsArtifact(html, p) && PreAt(hash, html, p) == ""
    ensures |Cells(hash, html)| == |html| && Woven(Cells(hash, html)[p..]) != ""
    ensures ElementAt(Woven(Cells(hash, html)[p..])).None?
  {
    hide HashIsPlain, Untangled, WellPlaced, Woven, Plain, ElementAt, TagAt, OpenEnd, Cells, PreAt;
    var cs := Cells(hash, html);
    CellsLength(hash, html);
    CellsWellPlaced(hash, html);
    PlainCells(hash, html);
    PlainPart(cs, p);
    WellPlacedRest(cs, p);
    PlainAt(cs[p..]);
    if HasOpenTag(html, p) {
      forall k: nat | k < OpenEnd(html[p..]).value ensures cs[p..][k].pre == "" {
        NoPreInTag(hash, html, p, p + k);
      }
    }
    SecondNone(cs[p..]);
  }

  /** What the second pass reads at an artifact: its element, with the inset among the attributes. */
  lemma SecondHere(hash: Hash, cs: seq<Cell>, s: string, e: Element, w: string)
    requires AtArtifact(hash, cs, s, e, w)
    ensures e.len <= |cs| && Woven(cs) != "" && ElementAt(Woven(cs)) == Some(Element(e.tag, e.len + |w|, e.attrs + w))
    ensures e.len + |w| <= |Woven(cs)| && Woven(cs)[e.len + |w|..] == Woven(cs[e.len..])
  {
    hide WellPlaced, CleanCloses, Plain, NoAids, LowerName, StampedTag, Inset, AidOf, PlainAid, ElementAt, Woven,
         SelfCloses;
    SecondElement(cs, e, w);
    StampedTagText(cs, e.len, w);
    OffSuffix(cs, e.len);
  }

  lemma SecondArtifact(hash: Hash, html: string, p: nat)
    requires HashIsPlain(hash) && Readable(html) && AllBare(html) && IsArtifact(html, p)
    requires |Cells(hash, html)| == |html|
    requires Rewrite(hash, Woven(Cells(hash, html)[EndAt(html, p)..])) == Woven(Cells(hash, html)[EndAt(html, p)..])
    ensures Rewrite(hash, Woven(Cells(hash, html)[p..])) == Woven(Cells(hash, html)[p..])
  {
    hide HashIsPlain, Readable, AtArtifact, NoSlashes, Rewrite, Woven, Cells, StampedOpen, Stamp, AidOf, ElementAt,
         Bare, InsetAt;
    var e, w := ElementAt(html[p..]).value, InsetAt(hash, html, p);
    ArtifactHere(hash, html, p, e, w);
    CellsNoSlashes(hash, html);
    NoSlashesRest(Cells(hash, html), p);
    assert BareAt(html, p);
    SecondHere(hash, Cells(hash, html)[p..], html[p..], e, w);
    SecondOpen(hash, Cells(hash, html)[p..], html[p..], e, w);
    assert Cells(hash, html)[p..][e.len..] == Cells(hash, html)[EndAt(html, p)..];
    RewriteAtElement(hash, Woven(Cells(hash, html)[p..]), Element(e.tag, e.len + |w|, e.attrs + w));
  }

  lemma RewriteAtElement(hash: Hash, s: string, e: Element)
    requires s != "" && ElementAt(s) == Some(e) && StampedOpen(hash, s, e) == s[..e.len]
    requires Rewrite(hash, s[e.len..]) == s[e.len..]
    ensures Rewrite(hash, s) == s
  {
    hide ElementAt, StampedOpen, TagAt, OpenEnd;
    assert s == s[..e.len] + s[e.len..];
  }

  lemma RewriteAtNone(hash: Hash, s: string)
    requires s != "" && ElementAt(s).None? && Rewrite(hash, s[1..]) == s[1..]
    ensures Rewrite(hash, s) == s
  {
    hide ElementAt;
    assert s == [s[0]] + s[1..];
  }

  /** With bare attributes throughout the woven text is stamped to itself. */
  lemma {:induction false} SecondPass(hash: Hash, html: string, p: nat)
    requires HashIsPlain(hash) && Readable(html) && AllBare(html) && Outside(html, p) && p <= |html|
    ensures |Cells(hash, html)| == |html|
    ensures Rewrite(hash, Woven(Cells(hash, html)[p..])) == Woven(Cells(hash, html)[p..])
    decreases |html| - p
  {
    hide HashIsPlain, NoAids, Outside, IsArtifact, EndAt, Rewrite, Cells, LowerName, AllBare, PreAt, Untangled,
         ElementAt, StampedOpen, Stamp, Woven;
    var cs := Cells(hash, html);
    CellsLength(hash, html);
    if p == |html| {
      NothingLeft(hash, html, cs);
      RewriteNothing(hash);
    } else if IsArtifact(html, p) {
      OutsideEnd(html, p);
      SecondPass(hash, html, EndAt(html, p));
      SecondArtifact(hash, html, p);
    } else {
      OutsideNext(html, p);
      SecondPass(hash, html, p + 1);
      NoPreOutside(hash, html, p);
      SecondOther(hash, html, p);
      WovenFrom(cs, p);
      assert Woven(cs[p..])[1..] == Woven(cs[p + 1..]);
      RewriteAtNone(hash, Woven(cs[p..]));
    }
  }

  lemma RewriteNothing(hash: Hash)
    ensures Rewrite(hash, "") == ""
  {
  }

  // ---------------------------------------------------------------- a second pass that changes nothing

  /** Two texts of the same open tag with different identities and tails. */
  lemma SameStamps(a: string, b: string, x: string, y: string)
    requires PlainAid(a) && PlainAid(b) && Stamp(a) + x == Stamp(b) + y
    ensures a == b && x == y
  {
    hide PlainAid;
    var head := " data-odoc-aid=\"";
    assert Stamp(a) + x == head + (a + ("\"" + x)) && Stamp(b) + y == head + (b + ("\"" + y));
    var s, t := a + ("\"" + x), b + ("\"" + y);
    assert s == (head + s)[|head|..] && t == (head + t)[|head|..];
    QuoteAfter(a, x, 0);
    QuoteAfter(b, y, 0);
    assert a == s[..|a|] && b == t[..|b|];
    assert x == s[|a| + 1..] && y == t[|b| + 1..];
  }

  /** After the trunk of its attributes the stamped tag has white space; stamped again it has the slash there,
      or the next identity one character further on. */
  lemma TrunkIsAll(attrs: string, slash: bool, a: string, b: string, x: string, y: string)
    requires slash == SelfCloses(attrs)
    ensures slash || Trunk(attrs) != attrs ==>
      attrs + (Inset(a, slash) + x) != (Trunk(attrs) + if slash then "/" else "") + (Inset(b, slash) + y)
  {
    hide SelfCloses, TextIndex.IsJsWs, Inset, Trunk;
    BlankIsWs();
    SlashIsNoWs();
    InsetHeads(a, slash);
    InsetHeads(b, slash);
    var s, n := attrs + (Inset(a, slash) + x), |Trunk(attrs)|;
    var t := (Trunk(attrs) + if slash then "/" else "") + (Inset(b, slash) + y);
    assert s[|attrs|] == ' ';
    if slash {
      assert TextIndex.IsJsWs(s[n]) && t[n] == '/';
    } else if n < |attrs| {
      assert TextIndex.IsJsWs(s[n + 1]) && t[n + 1] == 'd';
    }
  }

  lemma InsetHeads(aid: string, slash: bool)
    ensures |Inset(aid, slash)| > 2 && Inset(aid, slash)[0] == ' ' && Inset(aid, slash)[1] == 'd'
  {
  }

  lemma TrunkIsBare(attrs: string)
    requires Trunk(attrs) == attrs && !SelfCloses(attrs)
    ensures Bare(attrs)
  {
  }

  lemma SlashIsNoWs()
    ensures !TextIndex.IsJsWs('/')
  {
  }

  lemma ArtifactText(hash: Hash, cs: seq<Cell>, s: string, e: Element, w: string)
    requires AtArtifact(hash, cs, s, e, w)
    ensures e.tag != "" && e.len <= |cs| && e.len <= |s| && PlainAid(AidOf(hash, s, e))
    ensures Woven(cs) == ("<" + e.tag + e.attrs) + Inset(AidOf(hash, s, e), SelfCloses(e.attrs)) + ">"
      + Woven(cs[e.len..])
  {
    hide WellPlaced, CleanCloses, Plain, NoAids, StampedTag, PlainAid, ElementAt, Woven, SelfCloses, Inset, AidOf,
         LowerName;
    WovenAfterTag(cs, e.len, s, w);
    OpenIs(s, e);
  }

  /** If stamping again what starts with an artifact changes nothing, its attributes are bare, and stamping
      again what follows it changes nothing. */
  lemma SameOpen(hash: Hash, cs: seq<Cell>, s: string, e: Element, w: string)
    requires HashIsPlain(hash) && AtArtifact(hash, cs, s, e, w) && Rewrite(hash, Woven(cs)) == Woven(cs)
    ensures e.len <= |cs| && Bare(e.attrs) && Rewrite(hash, Woven(cs[e.len..])) == Woven(cs[e.len..])
  {
    hide AtArtifact, PlainAid, ElementAt, Woven, SelfCloses, Rewrite, HashIsPlain, Inset, Bare, Trunk, StampedOpen,
         AidOf;
    ArtifactText(hash, cs, s, e, w);
    SecondHere(hash, cs, s, e, w);
    var e2, rest := Element(e.tag, e.len + |w|, e.attrs + w), Woven(cs[e.len..]);
    AidIsPlain(hash, Woven(cs), e2);
    RewriteElement(hash, Woven(cs), e2);
    SecondOpenIs(hash, cs, s, e, w);
    SameTail(e.tag, e.attrs, SelfCloses(e.attrs), AidOf(hash, s, e), AidOf(hash, Woven(cs), e2), rest,
        Rewrite(hash, rest));
  }

  lemma SameTail(tag: string, attrs: string, slash: bool, a: string, b: string, x: string, y: string)
    requires PlainAid(a) && PlainAid(b) && slash == SelfCloses(attrs)
    requires ("<" + tag + attrs) + Inset(a, slash) + ">" + x
          == "<" + tag + (Trunk(attrs) + if slash then "/" else "") + Inset(b, slash) + ">" + y
    ensures Bare(attrs) && x == y
  {
    hide PlainAid, SelfCloses, Bare, Stamp, Trunk;
    var head, mid := "<" + tag, Trunk(attrs) + if slash then "/" else "";
    var s, t := attrs + (Inset(a, slash) + (">" + x)), mid + (Inset(b, slash) + (">" + y));
    assert ("<" + tag + attrs) + Inset(a, slash) + ">" + x == head + s;
    assert "<" + tag + mid + Inset(b, slash) + ">" + y == head + t;
    assert s == (head + s)[|head|..] && t == (head + t)[|head|..];
    TrunkIsAll(attrs, slash, a, b, ">" + x, ">" + y);
    TrunkIsBare(attrs);
    assert mid == attrs;
    assert Stamp(a) + (">" + x) == s[|attrs|..] && Stamp(b) + (">" + y) == t[|attrs|..];
    SameStamps(a, b, ">" + x, ">" + y);
    assert x == (">" + x)[1..] && y == (">" + y)[1..];
  }

  lemma RewriteElement(hash: Hash, s: string, e: Element)
    requires s != "" && e.tag != "" && e.len <= |s| && ElementAt(s) == Some(e)
    ensures Rewrite(hash, s) == StampedOpen(hash, s, e) + Rewrite(hash, s[e.len..])
  {
    hide ElementAt, StampedOpen, TagAt, OpenEnd;
  }

  lemma SameArtifact(hash: Hash, html: string, p: nat)
    requires HashIsPlain(hash) && Readable(html) && IsArtifact(html, p) && |Cells(hash, html)| == |html|
    requires Rewrite(hash, Woven(Cells(hash, html)[p..])) == Woven(Cells(hash, html)[p..])
    ensures BareAt(html, p)
    ensures Rewrite(hash, Woven(Cells(hash, html)[EndAt(html, p)..])) == Woven(Cells(hash, html)[EndAt(html, p)..])
  {
    hide HashIsPlain, Readable, AtArtifact, Rewrite, Woven, Cells, ElementAt, Bare, InsetAt;
    var e, w := ElementAt(html[p..]).value, InsetAt(hash, html, p);
    ArtifactHere(hash, html, p, e, w);
    SameOpen(hash, Cells(hash, html)[p..], html[p..], e, w);
    assert Cells(hash, html)[p..][e.len..] == Cells(hash, html)[EndAt(html, p)..];
  }

  lemma SameOther(hash: Hash, html: string, p: nat)
    requires HashIsPlain(hash) && Untangled(html) && Outside(html, p) && p < |html| && !IsArtifact(html, p)
    requires |Cells(hash, html)| == |html|
    requires Rewrite(hash, Woven(Cells(hash, html)[p..])) == Woven(Cells(hash, html)[p..])
    ensures Rewrite(hash, Woven(Cells(hash, html)[p + 1..])) == Woven(Cells(hash, html)[p + 1..])
  {
    hide HashIsPlain, Outside, IsArtifact, Cells, PreAt, Untangled, ElementAt, Woven, StampedOpen, Rewrite;
    var cs := Cells(hash, html);
    CellsLength(hash, html);
    NoPreOutside(hash, html, p);
    SecondOther(hash, html, p);
    WovenFrom(cs, p);
    var s, rest := Woven(cs[p..]), Woven(cs[p + 1..]);
    RewriteCopies(hash, s);
    assert s[1..] == rest && s[0] == cs[p].c;
    assert Rewrite(hash, rest) == ([cs[p].c] + Rewrite(hash, rest))[1..] == s[1..];
  }

  lemma RewriteCopies(hash: Hash, s: string)
    requires s != "" && ElementAt(s).None?
    ensures Rewrite(hash, s) == [s[0]] + Rewrite(hash, s[1..])
  {
    hide ElementAt;
  }

  /** If stamping the woven text from a character on changes nothing, every artifact there has bare attributes. */
  lemma {:induction false} SameMeansBare(hash: Hash, html: string, p: nat)
    requires HashIsPlain(hash) && Readable(html) && Outside(html, p) && p <= |html| && |Cells(hash, html)| == |html|
    requires Rewrite(hash, Woven(Cells(hash, html)[p..])) == Woven(Cells(hash, html)[p..])
    ensures forall q: nat :: q >= p && IsArtifact(html, q) ==> BareAt(html, q)
    decreases |html| - p
  {
    hide HashIsPlain, NoAids, Outside, EndAt, Rewrite, Cells, LowerName, Untangled, ElementAt, Woven, BareAt;
    if p == |html| {
    } else if IsArtifact(html, p) {
      SameArtifact(hash, html, p);
      OutsideEnd(html, p);
      SameMeansBare(hash, html, EndAt(html, p));
      forall q: nat | q > p && IsArtifact(html, q) ensures BareAt(html, q) {
        NothingInside(html, p, q);
      }
    } else {
      SameOther(hash, html, p);
      OutsideNext(html, p);
      SameMeansBare(hash, html, p + 1);
    }
  }

  /** When stamping is idempotent: on a document whose artifacts' open tags end in no other tag, with lower-case
      names and no identities yet, a second stamping changes nothing if and only if no artifact's attributes
      end in white space or a slash. */
  lemma StampingTwiceIsStampingOnce(hash: Hash, html: string)
    requires HashIsPlain(hash) && Readable(html)
    ensures Rewrite(hash, Rewrite(hash, html)) == Rewrite(hash, html) <==> AllBare(html)
  {
    hide HashIsPlain, Readable, AllBare, Rewrite, Woven, Cells, Outside, BareAt, IsArtifact;
    StartIsOutside(html);
    CellsLength(hash, html);
    FirstPass(hash, html, 0);
    assert html[0..] == html && Cells(hash, html)[0..] == Cells(hash, html);
    if AllBare(html) {
      SecondPass(hash, html, 0);
    }
    if Rewrite(hash, Rewrite(hash, html)) == Rewrite(hash, html) {
      SameMeansBare(hash, html, 0);
      BareThroughout(html);
    }
  }

  lemma BareThroughout(html: string)
    requires forall q: nat :: q >= 0 && IsArtifact(html, q) ==> BareAt(html, q)
    ensures AllBare(html)
  {
    hide IsArtifact, BareAt;
  }

  // ---------------------------------------------------------------- the splices of the second pass

  lemma {:induction false} OffMonotone(cs: seq<Cell>, i: nat, j: nat)
    requires i <= j <= |cs|
    ensures Off(cs, i) <= Off(cs, j)
  {
    hide Woven;
    OffAdds(cs, i, j - i);
  }

  /** A "<" of the woven text is one of the plain text. */
  lemma {:induction false} CellOf(cs: seq<Cell>, at: nat) returns (p: nat)
    requires WellPlaced(cs) && at < |Woven(cs)| && Woven(cs)[at] == '<'
    ensures p < |cs| && cs[p] == Cell("", '<') && Off(cs, p) == at
  {
    hide WellPlaced, IsInset, Off;
    var n := |cs[0].pre|;
    PreHasNoTag(cs);
    WellPlacedRest(cs, 1);
    OffStep(cs);
    NotInPre(cs, at);
    if at == n {
      p := 0;
    } else {
      assert Woven(cs)[at] == Woven(cs[1..])[at - n - 1];
      p := CellOf(cs[1..], at - n - 1);
      OffAdds(cs, 1, p);
      p := p + 1;
    }
  }

  lemma NotInPre(cs: seq<Cell>, at: nat)
    requires cs != [] && '<' !in cs[0].pre && at < |Woven(cs)| && Woven(cs)[at] == '<'
    ensures at >= |cs[0].pre|
  {
    var a := cs[0].pre;
    assert forall k :: 0 <= k < |a| ==> Woven(cs)[k] == a[k] && a[k] in a;
  }

  lemma PreHasNoTag(cs: seq<Cell>)
    requires WellPlaced(cs) && cs != []
    ensures '<' !in cs[0].pre && (cs[0].pre != "" ==> cs[0].c == '>')
  {
    if cs[0].pre != "" {
      InsetNoTag(cs[0].pre);
    }
  }

  /** The artifacts of the stamped document are those of the document, where they have moved to. */
  lemma SecondArtifacts(hash: Hash, html: string, at: nat) returns (p: nat)
    requires HashIsPlain(hash) && Readable(html) && IsArtifact(Woven(Cells(hash, html)), at)
    ensures |Cells(hash, html)| == |html| && IsArtifact(html, p)
    ensures Off(Cells(hash, html), p) == at
    ensures EndAt(Woven(Cells(hash, html)), at) == Off(Cells(hash, html), EndAt(html, p))
  {
    hide HashIsPlain, Readable, WellPlaced, CleanCloses, Plain, NoAids, LowerName, StampedTag, Woven, Cells, Inset,
         AidOf, PlainAid, SelfCloses, ElementAt, TagAt, OpenEnd, Off, PreAt, InsetAt;
    var cs := Cells(hash, html);
    CellsLength(hash, html);
    CellsWellPlaced(hash, html);
    p := CellOf(cs, at);
    OffSuffix(cs, p);
    assert PreAt(hash, html, p) == "";
    if !IsArtifact(html, p) {
      ReadableUntangled(html);
      SecondOther(hash, html, p);
      assert false;
    }
    var e, w := ElementAt(html[p..]).value, InsetAt(hash, html, p);
    ArtifactHere(hash, html, p, e, w);
    SecondHere(hash, cs[p..], html[p..], e, w);
    StampedTagText(cs[p..], e.len, w);
    OffAdds(cs, p, e.len);
  }

  lemma ReadableUntangled(html: string)
    requires Readable(html)
    ensures Untangled(html)
  {
    hide Untangled, NoAids;
  }

  lemma StampedIsApart(hash: Hash, html: string)
    requires HashIsPlain(hash) && Readable(html)
    ensures Apart(Woven(Cells(hash, html)))
  {
    hide HashIsPlain, Readable, Woven, Cells, Off, IsArtifact, EndAt, Untangled;
    var cs, s := Cells(hash, html), Woven(Cells(hash, html));
    ReadableUntangled(html);
    CellsLength(hash, html);
    forall at: nat, other: nat | at < other < |s| && IsArtifact(s, at) && IsArtifact(s, other)
      ensures EndAt(s, at) <= other
    {
      var p := SecondArtifacts(hash, html, at);
      var q := SecondArtifacts(hash, html, other);
      if q <= p { OffMonotone(cs, q, p); }
      NothingInside(html, p, q);
      ArtifactIsTag(html, q);
      OffMonotone(cs, EndAt(html, p), q);
    }
  }

  /** So the program, which stamps such a document to its rewrite and then splices its stamps into that, stays in
      range, and returns it unchanged under the same condition. */
  lemma StampedStays(hash: Hash, html: string, starts: seq<nat>)
    requires HashIsPlain(hash) && Readable(html) && AllFrom(Rewrite(hash, html), 0, starts)
    ensures Apart(html)
    ensures forall p :: p in starts ==> IsArtifact(Rewrite(hash, html), p)
    ensures SpliceAll(Rewrite(hash, html), Patches(hash, Rewrite(hash, html), starts)).Some?
    ensures SpliceAll(Rewrite(hash, html), Patches(hash, Rewrite(hash, html), starts)) == Some(Rewrite(hash, html))
       <==> AllBare(html)
  {
    hide HashIsPlain, Readable, AllBare, Rewrite, Woven, Cells, Patches, SpliceAll, IsArtifact, Apart, Outside,
         Untangled;
    ReadableUntangled(html);
    UntangledIsApart(html);
    StartIsOutside(html);
    FirstPass(hash, html, 0);
    assert html[0..] == html && Cells(hash, html)[0..] == Cells(hash, html);
    StampedIsApart(hash, html);
    SplicingIsRewriting(hash, Rewrite(hash, html), starts);
    StampingTwiceIsStampingOnce(hash, html);
  }

  lemma StartIsOutside(html: string)
    ensures Outside(html, 0)
  {
  }

  // ---------------------------------------------------------------- a document a second stamping changes

  lemma ImgTag()
    ensures ElementAt("<img/>") == Some(Element("img", 6, "/"))
  {
    hide ScanEnd, Marked;
    var s := "<img/>";
    ScanText("img/", ">", NUL);
    ScanCons('>', "", NUL);
    assert s[1..] == "img/" + ">" && ['>'] + "" == ">";
    assert OpenEnd(s) == Some(6);
    assert s[1] == 'i' && s[2] == 'm' && s[3] == 'g' && s[4] == '/';
    assert FoldPrefix(s[1..], "img");
    assert OpenAt(s, "img");
    assert STAMPABLE[0] == "img";
    NameIsShort(s);
    assert s[4..5] == "/";
  }

  lemma ImgAlone(q: nat)
    ensures IsArtifact("<img/>", q) || HasOpenTag("<img/>", q) ==> q == 0
    ensures forall tag :: !HasCloseTag("<img/>", q, tag)
    ensures IsArtifact("<img/>", 0) && EndAt("<img/>", 0) == 6
    ensures ElementAt("<img/>"[0..]) == Some(Element("img", 6, "/"))
  {
    hide OpenEnd, ElementAt;
    var s := "<img/>";
    ImgTag();
    assert s[0..] == s;
    assert q < |s| ==> s[q..][0] == s[q];
    assert s[0..][1] == 'i';
  }

  lemma ShortNoAids(s: string)
    requires |s| < |AID_ATTR|
    ensures NoAids(s)
  {
  }

  lemma ImgReadable()
    ensures Readable("<img/>")
  {
    hide NoAids, IsArtifact, ElementAt, EndAt, HasOpenTag, HasCloseTag, OpenTagEnd, CloseTagEnd;
    var s := "<img/>";
    ShortNoAids(s);
    ImgAlone(0);
    forall q: nat ensures IsArtifact(s, q) || HasOpenTag(s, q) ==> q == 0 {
      ImgAlone(q);
    }
    forall q: nat, tag ensures !HasCloseTag(s, q, tag) {
      ImgAlone(q);
    }
    assert s[0..][1..4] == "img";
  }

  /** The smallest document that a second stamping changes: a self-closing image. */
  lemma SelfClosingChanges(hash: Hash)
    requires HashIsPlain(hash)
    ensures Readable("<img/>") && !AllBare("<img/>")
    ensures Rewrite(hash, Rewrite(hash, "<img/>")) != Rewrite(hash, "<img/>")
  {
    hide HashIsPlain, Rewrite, IsArtifact, ElementAt, Readable, AllBare;
    ImgAlone(0);
    ImgReadable();
    SlashNotBare("<img/>");
    StampingTwiceIsStampingOnce(hash, "<img/>");
  }

  lemma SlashNotBare(html: string)
    requires IsArtifact(html, 0) && !BareAt(html, 0)
    ensures !AllBare(html)
  {
    hide IsArtifact, BareAt;
  }
}
