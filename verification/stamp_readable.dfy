/** Which documents the idempotence of stamping is about: those whose tags stand apart, close tags and all. */
module StampReadable {
  import opened CommentTypes
  import opened StampScan
  import opened TextPrefix
  import opened Stamper
  import opened StampWeave
  import opened StampLaws
  import opened StampTwice

  /** Tags stand apart: no "<" inside an artifact's open tag, and every open tag before it ends before it. */
  ghost predicate Separate(html: string) {
    forall q: nat :: IsArtifact(html, q) ==>
      && (forall k :: q < k < EndAt(html, q) ==> html[k] != '<')
      && (forall r: nat :: r < q && HasOpenTag(html, r) ==> OpenTagEnd(html, r) <= q)
  }

  /** A close tag has no "<" but its first. */
  lemma CloseHasOne(s: string, tag: string, i: nat)
    requires TagName(tag) && CloseAt(s, tag).Some? && 0 < i < CloseAt(s, tag).value
    ensures s[i] != '<'
  {
    var k := |tag| + 2;
    if 2 <= i < k {
      assert Lower(s[2..][i - 2]) == Lower(tag[i - 2]) && IsName(tag[i - 2]);
    } else if i >= k {
      SpaceRunIs(s[k..], i - k);
    }
  }

  /** A tag name starts with no slash. */
  lemma NameAfter(s: string)
    requires TagAt(s).Some?
    ensures |s| >= 2 && s[1] != '/'
  {
    if Stampable(s) {
      FirstOpenHas(s, STAMPABLE);
      StampableLetters(TagAt(s).value);
      FoldedName(s, TagAt(s).value);
    }
  }

  lemma CloseOutside(html: string, q: nat, r: nat, tag: string)
    requires Separate(html) && IsArtifact(html, q) && TagName(tag) && HasCloseTag(html, r, tag)
    ensures EndAt(html, q) != CloseTagEnd(html, r, tag)
  {
    hide TagName, ElementAt, TagAt, OpenEnd;
    ArtifactIsTag(html, q);
    ArtifactAdvances(html, q);
    var s := html[r..];
    CloseHead(s, tag);
    assert html[r] == s[0];
    if r < q < CloseTagEnd(html, r, tag) {
      assert s[q - r] == html[q];
      CloseHasOne(s, tag, q - r);
    } else if r == q {
      NameAfter(html[q..]);
    }
  }

  lemma CloseHead(s: string, tag: string)
    requires CloseAt(s, tag).Some?
    ensures |s| >= 2 && s[0] == '<' && s[1] == '/'
  {
  }

  lemma OpenHead(html: string, r: nat)
    requires HasOpenTag(html, r)
    ensures html[r] == '<'
  {
    hide TagAt, OpenEnd;
    assert html[r..][0] == html[r];
  }

  /** Where tags stand apart no artifact's open tag ends inside another tag. */
  lemma SeparateIsUntangled(html: string)
    requires Separate(html)
    ensures Untangled(html)
  {
    hide IsArtifact, EndAt, HasOpenTag, OpenTagEnd, HasCloseTag, CloseTagEnd, TagName;
    forall q: nat, r: nat | IsArtifact(html, q) && HasOpenTag(html, r) && r != q
      ensures !(r < EndAt(html, q) <= OpenTagEnd(html, r))
    {
      OpenHead(html, r);
      ArtifactAdvances(html, q);
    }
    forall q: nat, r: nat, tag | IsArtifact(html, q) && TagName(tag) && HasCloseTag(html, r, tag)
      ensures EndAt(html, q) != CloseTagEnd(html, r, tag)
    {
      CloseOutside(html, q, r, tag);
    }
  }

  // ---------------------------------------------------------------- a paragraph and an image

  const PAGE := "<p>a</p><img>"

  /** "<p>" is a tag, but no artifact. */
  lemma ParagraphTag(s: string)
    requires |s| >= 3 && s[0] == '<' && s[1] == 'p' && s[2] == '>'
    ensures OpenEnd(s) == Some(3) && ElementAt(s).None?
  {
    hide Marked;
    assert s[1..][1..] == s[2..] && s[1..][0] == 'p' && s[2..][0] == '>';
    assert ScanEnd(s[2..], NUL) == Some(1);
    assert ScanEnd(s[1..], NUL) == Some(2);
    NotStampable(s);
    if TagAt(s).Some? {
      NameIsShort(s);
      assert s[|TagAt(s).value| + 1..2] == "";
      NothingMarked();
    }
  }

  lemma NotStampable(s: string)
    requires |s| >= 3 && s[0] == '<' && s[1] == 'p' && s[2] == '>'
    ensures !Stampable(s)
  {
    FirstOpenHas(s, STAMPABLE);
    hide OpenAt;
    forall t | t in STAMPABLE ensures !OpenAt(s, t) {
      SecondLetter(t);
      NotOpen(s, t);
    }
  }

  lemma SecondLetter(t: string)
    requires t in STAMPABLE
    ensures |t| >= 2 && (Lower(t[0]) == 'p' ==> t[1] == 'r')
  {
  }

  lemma NotOpen(s: string, t: string)
    requires |s| >= 3 && s[1] == 'p' && s[2] == '>' && |t| >= 2 && (Lower(t[0]) == 'p' ==> t[1] == 'r')
    ensures !OpenAt(s, t)
  {
    assert s[1..][0] == 'p' && s[1..][1] == '>';
  }

  lemma NothingMarked()
    ensures !Marked("")
  {
  }

  lemma ImageTag(s: string)
    requires s == "<img>"
    ensures ElementAt(s) == Some(Element("img", 5, ""))
  {
    hide ScanEnd, Marked;
    ScanText("img", ">", NUL);
    ScanCons('>', "", NUL);
    assert s[1..] == "img" + ">" && ['>'] + "" == ">";
    assert OpenEnd(s) == Some(5);
    assert FoldPrefix(s[1..], "img");
    assert OpenAt(s, "img") && STAMPABLE[0] == "img";
    NameIsShort(s);
    assert s[4..4] == "";
  }

  /** Tags in the page, place by place. */
  lemma PageTags(q: nat)
    ensures IsArtifact(PAGE, q) <==> q == 8
    ensures HasOpenTag(PAGE, q) ==> q == 8 || (q == 0 && OpenTagEnd(PAGE, q) == 3)
    ensures IsArtifact(PAGE, 8) && EndAt(PAGE, 8) == 13 && ElementAt(PAGE[8..]) == Some(Element("img", 5, ""))
  {
    hide OpenEnd, ElementAt, TagAt;
    assert PAGE[8..] == "<img>";
    ImageTag(PAGE[8..]);
    ParagraphTag(PAGE[0..]);
    if q < |PAGE| {
      assert PAGE[q..][0] == PAGE[q];
      if q == 4 {
        assert PAGE[q..][1] == '/';
        NoName(PAGE[q..]);
      }
    }
  }

  lemma NoName(s: string)
    requires |s| >= 2 && s[1] == '/'
    ensures TagAt(s).None? && ElementAt(s).None?
  {
    hide TagAt;
    if TagAt(s).Some? { NameAfter(s); assert false; }
  }

  /** A page with a close tag before its artifact is among the documents considered, and stamping it twice is
      stamping it once. */
  lemma PageStampedOnce(hash: Hash)
    requires HashIsPlain(hash)
    ensures Readable(PAGE) && AllBare(PAGE)
    ensures Rewrite(hash, Rewrite(hash, PAGE)) == Rewrite(hash, PAGE)
  {
    hide HashIsPlain, Rewrite, IsArtifact, EndAt, ElementAt, HasOpenTag, OpenTagEnd, NoAids, Untangled;
    forall q: nat ensures (IsArtifact(PAGE, q) <==> q == 8)
                       && (HasOpenTag(PAGE, q) ==> q == 8 || (q == 0 && OpenTagEnd(PAGE, q) == 3)) {
      PageTags(q);
    }
    PageTags(8);
    assert forall k :: 8 < k < 13 ==> PAGE[k] != '<';
    SeparateIsUntangled(PAGE);
    PageNoAids();
    assert PAGE[8..] == "<img>" && "<img>"[1..4] == "img";
    StampingTwiceIsStampingOnce(hash, PAGE);
  }

  lemma PageNoAids()
    ensures NoAids(PAGE)
  {
    forall i | 0 <= i <= |PAGE| ensures !StartsWith(PAGE[i..], AID_ATTR) {
      if i == 0 { DiffersAt(PAGE[i..], AID_ATTR, 0); }
    }
  }
}
