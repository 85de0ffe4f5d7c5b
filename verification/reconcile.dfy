/** What a publish does to the anchors of the comments it finds. */
module ReconcileLaws {
  import opened CommentTypes
  import opened EventLog
  import opened CommentFold
  import opened LegacyMigration
  import opened CommentOps
  import opened CommentRuns
  import opened ReactionLaws

  /** Alive at v, on an element or already lost. */
  predicate Anchored(c: Comment, v: int) {
    var s := Snapshot(c, v);
    s.Some? && !s.value.deleted && s.value.anchor.Some?
    && (s.value.anchor.value.kind.ElementAnchor? || s.value.anchor.value.kind.LostAnchor?)
  }

  // ---------------------------------------------------------------- what an anchor fits

  predicate SameButCase(a: string, b: string) {
    |a| == |b| && forall k :: 0 <= k < |a| ==> Lower(a[k]) == Lower(b[k])
  }

  function Lower(c: char): char {
    if 'A' <= c <= 'Z' then c - 'A' + 'a' else c
  }

  /** The artifact has the tag of the anchor's fingerprint, else the one its label spells in lower case;
      an anchor with neither takes any tag. */
  predicate FitsTag(a: Anchor, x: StampedArtifact) {
    if a.fingerprint.Some? && a.fingerprint.value.tag != "" then x.tag == a.fingerprint.value.tag
    else if a.labelText != "" then
      |x.tag| == |a.labelText| && forall k :: 0 <= k < |x.tag| ==> x.tag[k] == Lower(a.labelText[k])
    else true
  }

  /** The artifact has the anchor's nearest heading up to case, if the anchor has one. */
  predicate FitsHeading(a: Anchor, x: StampedArtifact) {
    a.fallback.Some? && a.fallback.value.nearestHeading.Some? && a.fallback.value.nearestHeading.value != "" ==>
      x.heading.Some? && SameButCase(x.heading.value, a.fallback.value.nearestHeading.value)
  }

  predicate FitsBoth(a: Anchor, x: StampedArtifact) {
    FitsTag(a, x) && FitsHeading(a, x)
  }

  /** The i-th artifact is the single confident target: the only one that fits tag and heading, or, where
      none fits both, the only one that fits the tag. */
  predicate Target(a: Anchor, aids: seq<StampedArtifact>, i: nat) {
    && i < |aids|
    && if FitsBoth(a, aids[i]) then forall j :: 0 <= j < |aids| && j != i ==> !FitsBoth(a, aids[j])
       else FitsTag(a, aids[i]) && forall j :: 0 <= j < |aids| && j != i ==> !FitsTag(a, aids[j])
  }

  lemma FitsAsWanted(a: Anchor, x: StampedArtifact)
    ensures TagFits(a, x) <==> FitsTag(a, x)
    ensures HeadingFits(a, x) <==> FitsHeading(a, x)
  {
    var low := ToLower(a.labelText);
    assert |low| == |a.labelText| && forall k :: 0 <= k < |low| ==> low[k] == Lower(a.labelText[k]);
    if x.heading.Some? && a.fallback.Some? && a.fallback.value.nearestHeading.Some? {
      FoldsTo(x.heading.value, a.fallback.value.nearestHeading.value);
    }
  }

  lemma FoldsTo(a: string, b: string)
    ensures EqualFold(a, b) <==> SameButCase(a, b)
  {
    var x, y := ToLower(a), ToLower(b);
    assert |x| == |a| && |y| == |b|;
    assert forall k :: 0 <= k < |x| ==> x[k] == Lower(a[k]);
    assert forall k :: 0 <= k < |y| ==> y[k] == Lower(b[k]);
  }

  predicate Fits(a: Anchor, x: StampedArtifact, withHeading: bool) {
    FitsTag(a, x) && (withHeading ==> FitsHeading(a, x))
  }

  /** What Fitting collects, by how many indices fit: none, the one, or at least two. */
  lemma {:induction false} FittingCounts(a: Anchor, aids: seq<StampedArtifact>, withHeading: bool)
    ensures var r := Fitting(a, aids, withHeading);
      && (r == [] <==> forall i :: 0 <= i < |aids| ==> !Fits(a, aids[i], withHeading))
      && (|r| == 1 ==> exists i :: OnlyFit(a, aids, withHeading, i) && aids[i] == r[0])
      && (|r| >= 2 ==> forall i :: !OnlyFit(a, aids, withHeading, i))
  {
    hide FitsTag, FitsHeading, TagFits, HeadingFits;
    if aids != [] {
      var t, x := aids[..|aids| - 1], aids[|aids| - 1];
      FittingCounts(a, t, withHeading);
      FitsAsWanted(a, x);
      var f, r := Fitting(a, t, withHeading), Fitting(a, aids, withHeading);
      if Fits(a, x, withHeading) {
        assert r == f + [x];
        if f == [] {
          assert OnlyFit(a, aids, withHeading, |t|);
        } else {
          var i :| 0 <= i < |t| && Fits(a, t[i], withHeading);
          assert Fits(a, aids[i], withHeading) && Fits(a, aids[|t|], withHeading);
        }
      } else {
        assert r == f;
        if |f| == 1 {
          var i :| OnlyFit(a, t, withHeading, i) && t[i] == f[0];
          assert OnlyFit(a, aids, withHeading, i);
        }
        if |f| >= 2 {
          forall i ensures !OnlyFit(a, aids, withHeading, i) {
            assert !OnlyFit(a, t, withHeading, i);
          }
        }
      }
    }
  }

  predicate OnlyFit(a: Anchor, aids: seq<StampedArtifact>, withHeading: bool, i: int) {
    && 0 <= i < |aids| && Fits(a, aids[i], withHeading)
    && forall j :: 0 <= j < |aids| && j != i ==> !Fits(a, aids[j], withHeading)
  }

  /** A drifted anchor is bound to its single confident target, and to nothing where there is none. */
  lemma RebindExactly(a: Anchor, aids: seq<StampedArtifact>)
    ensures forall i: nat :: Target(a, aids, i) ==> RebindAid(a, aids) == aids[i].aid
    ensures (forall i: nat :: !Target(a, aids, i)) ==> RebindAid(a, aids) == ""
  {
    hide FitsTag, FitsHeading, Fitting;
    FittingCounts(a, aids, true);
    FittingCounts(a, aids, false);
    forall i: nat | Target(a, aids, i) ensures RebindAid(a, aids) == aids[i].aid {
      if FitsBoth(a, aids[i]) {
        assert Fits(a, aids[i], true);
        assert OnlyFit(a, aids, true, i);
      } else {
        assert Fits(a, aids[i], false);
        assert OnlyFit(a, aids, false, i);
        assert forall j :: 0 <= j < |aids| && Fits(a, aids[j], true) ==> Fits(a, aids[j], false);
      }
    }
    TargetFound(a, aids);
  }

  lemma TargetFound(a: Anchor, aids: seq<StampedArtifact>)
    ensures var both, tagOnly := Fitting(a, aids, true), Fitting(a, aids, false);
      |both| == 1 || (both == [] && |tagOnly| == 1) ==> exists i: nat :: Target(a, aids, i)
  {
    hide FitsTag, FitsHeading, Fitting;
    FittingCounts(a, aids, true);
    FittingCounts(a, aids, false);
    var both, tagOnly := Fitting(a, aids, true), Fitting(a, aids, false);
    if |both| == 1 {
      var i :| OnlyFit(a, aids, true, i) && aids[i] == both[0];
      assert forall j :: 0 <= j < |aids| && FitsBoth(a, aids[j]) ==> Fits(a, aids[j], true);
      assert Target(a, aids, i);
    } else if both == [] && |tagOnly| == 1 {
      var i :| OnlyFit(a, aids, false, i) && aids[i] == tagOnly[0];
      assert !Fits(a, aids[i], true);
      assert forall j :: 0 <= j < |aids| && FitsTag(a, aids[j]) ==> Fits(a, aids[j], false);
      assert Target(a, aids, i);
    }
  }

  /** Two artifacts that fit tag and heading, or none that does and not exactly one that fits the tag,
      are no target. */
  lemma AmbiguousIsNone(a: Anchor, aids: seq<StampedArtifact>)
    requires || (exists i, j :: 0 <= i < j < |aids| && FitsBoth(a, aids[i]) && FitsBoth(a, aids[j]))
             || ((forall i :: 0 <= i < |aids| ==> !FitsBoth(a, aids[i]))
                 && (|| (exists i, j :: 0 <= i < j < |aids| && FitsTag(a, aids[i]) && FitsTag(a, aids[j]))
                     || forall i :: 0 <= i < |aids| ==> !FitsTag(a, aids[i])))
    ensures RebindAid(a, aids) == ""
  {
    hide FitsTag, FitsHeading;
    RebindExactly(a, aids);
  }

  /** The i-th artifact is what the anchor is bound to when it has drifted. */
  predicate Confident(a: Anchor, aids: seq<StampedArtifact>, i: nat) {
    Target(a, aids, i) && aids[i].aid != ""
  }

  // ---------------------------------------------------------------- the artifact an anchor names

  /** The n word characters from p + 16 on are an identity inside [data-odoc-aid="..."] at p. */
  predicate NamesAid(s: string, p: nat, n: nat) {
    && 0 < n && p + 16 + n + 2 <= |s|
    && s[p..p + 16] == "[data-odoc-aid=\""
    && (forall k :: p + 16 <= k < p + 16 + n ==> IsWordChar(s[k]))
    && s[p + 16 + n..p + 18 + n] == "\"]"
  }

  lemma {:induction false} WordRunExact(s: string)
    ensures forall k :: 0 <= k < WordRun(s) ==> IsWordChar(s[k])
    ensures WordRun(s) < |s| ==> !IsWordChar(s[WordRun(s)])
  {
    if s != [] && IsWordChar(s[0]) {
      WordRunExact(s[1..]);
    }
  }

  lemma NamedHere(s: string, n: nat)
    ensures NamesAid(s, 0, n) <==>
      && "[data-odoc-aid=\"" <= s && n == WordRun(s[16..]) > 0 && "\"]" <= s[16 + n..]
  {
    if |s| >= 16 {
      var t := s[16..];
      WordRunExact(t);
      var w := WordRun(t);
      if NamesAid(s, 0, n) {
        assert s[..16] == "[data-odoc-aid=\"";
        assert forall k :: 0 <= k < n ==> t[k] == s[16 + k];
        assert t[n] == s[16 + n..18 + n][0] == '\"';
        assert s[16 + n..][..2] == "\"]";
      }
      if "[data-odoc-aid=\"" <= s && n == w > 0 && "\"]" <= s[16 + n..] {
        assert forall k :: 16 <= k < 16 + n ==> s[k] == t[k - 16];
        assert s[16 + n..18 + n] == s[16 + n..][..2];
      }
    }
  }

  lemma NamedLater(s: string, p: nat, n: nat)
    requires s != []
    ensures NamesAid(s, p + 1, n) <==> NamesAid(s[1..], p, n)
  {
    var t := s[1..];
    if p + 18 + n <= |t| {
      assert t[p..p + 16] == s[p + 1..p + 17];
      assert t[p + 16 + n..p + 18 + n] == s[p + 17 + n..p + 19 + n];
      assert forall k :: p + 16 <= k < p + 16 + n ==> t[k] == s[k + 1];
      assert forall k :: p + 17 <= k < p + 17 + n ==> s[k] == t[k - 1];
    }
  }

  /** The first identity in brackets that the selector holds is its characters from p + 16, n of them. */
  ghost predicate FirstNamed(s: string, p: nat, n: nat) {
    NamesAid(s, p, n) && forall q: nat, k: nat :: q < p ==> !NamesAid(s, q, k)
  }

  /** The identity a selector names is the first it holds in brackets, and "" if it holds none. */
  lemma {:induction false} SelectorAidFirst(s: string)
    ensures forall p: nat, n: nat :: FirstNamed(s, p, n) ==>
      p + 16 + n <= |s| && n > 0 && SelectorAid(s) == s[p + 16..p + 16 + n]
    ensures (forall p: nat, n: nat :: !FirstNamed(s, p, n)) ==> SelectorAid(s) == ""
  {
    hide NamesAid, WordRun;
    forall p: nat, n: nat ensures NamesAid(s, p, n) ==> p + 16 + n <= |s| && n > 0 {
      NamedInside(s, p, n);
    }
    if s != [] {
      forall n: nat ensures NamesAid(s, 0, n) <==>
          "[data-odoc-aid=\"" <= s && n == WordRun(s[16..]) > 0 && "\"]" <= s[16 + n..]
      {
        NamedHere(s, n);
      }
      SelectorAidHere(s);
      if n: nat :| NamesAid(s, 0, n) {
        assert FirstNamed(s, 0, n);
        assert n == WordRun(s[16..]);
      } else {
        assert |s| >= 16 ==> !NamesAid(s, 0, WordRun(s[16..]));
        SelectorAidFirst(s[1..]);
        NamedBehind(s);
      }
    }
  }

  lemma SelectorAidHere(s: string)
    requires s != []
    ensures SelectorAid(s) ==
      if "[data-odoc-aid=\"" <= s && WordRun(s[16..]) > 0 && "\"]" <= s[16 + WordRun(s[16..])..] then
        s[16..16 + WordRun(s[16..])]
      else SelectorAid(s[1..])
  {
    assert |"[data-odoc-aid=\""| == 16;
  }

  lemma SliceLater(s: string, i: nat, j: nat)
    requires i <= j < |s|
    ensures s[i + 1..j + 1] == s[1..][i..j]
  {
    var a, b := s[i + 1..j + 1], s[1..][i..j];
    assert |a| == |b| && forall k :: 0 <= k < |a| ==> a[k] == s[i + 1 + k] == b[k];
  }

  lemma NamedInside(s: string, p: nat, n: nat)
    ensures NamesAid(s, p, n) ==> p + 16 + n <= |s| && n > 0
  {
  }

  lemma NamedBehind(s: string)
    requires s != [] && forall n: nat :: !NamesAid(s, 0, n)
    ensures forall p: nat, n: nat :: FirstNamed(s, p, n) ==>
      p > 0 && FirstNamed(s[1..], p - 1, n) && p + 16 + n <= |s| && s[p + 16..p + 16 + n] == s[1..][p + 15..p + 15 + n]
    ensures forall p: nat, n: nat :: FirstNamed(s[1..], p, n) ==> FirstNamed(s, p + 1, n)
  {
    hide NamesAid;
    var t := s[1..];
    forall p: nat, n: nat ensures NamesAid(s, p + 1, n) <==> NamesAid(t, p, n) {
      NamedLater(s, p, n);
    }
    forall p: nat, n: nat | FirstNamed(s, p, n)
      ensures p > 0 && FirstNamed(t, p - 1, n) && p + 16 + n <= |s|
      ensures s[p + 16..p + 16 + n] == t[p + 15..p + 15 + n]
    {
      NamedInside(s, p, n);
      assert NamesAid(s, p - 1 + 1, n);
      SliceLater(s, p + 15, p + 15 + n);
      forall q: nat, k: nat | q < p - 1 ensures !NamesAid(t, q, k) {
        assert !NamesAid(s, q + 1, k);
      }
    }
    forall p: nat, n: nat | FirstNamed(t, p, n) ensures FirstNamed(s, p + 1, n) {
      forall q: nat, k: nat | q < p + 1 ensures !NamesAid(s, q, k) {
        if q > 0 {
          assert !NamesAid(t, q - 1, k);
          assert NamesAid(s, q - 1 + 1, k) <==> NamesAid(t, q - 1, k);
        }
      }
    }
  }

  /** The anchor names this identity: its own, or, when it has none, the first its selector holds. */
  ghost predicate Names(a: Anchor, aid: string) {
    && a.kind.ElementAnchor? && aid != ""
    && if a.aid != "" then aid == a.aid
       else exists p: nat, n: nat :: FirstNamed(a.selector, p, n) && aid == a.selector[p + 16..p + 16 + n]
  }

  /** The anchor names an artifact of the version. */
  ghost predicate StillThere(a: Anchor, aids: seq<StampedArtifact>) {
    exists i :: 0 <= i < |aids| && Names(a, aids[i].aid)
  }

  lemma NamesKnown(a: Anchor, aid: string)
    ensures Names(a, aid) <==> aid != "" && aid == KnownAid(a)
  {
    hide NamesAid;
    SelectorAidFirst(a.selector);
    if a.kind.ElementAnchor? && a.aid == "" {
      if p: nat, n: nat :| FirstNamed(a.selector, p, n) {
        assert SelectorAid(a.selector) == a.selector[p + 16..p + 16 + n];
        assert a.selector != "";
      }
    }
  }

  lemma KnownExactly(a: Anchor, aids: seq<StampedArtifact>)
    ensures KnownIn(a, aids) <==> StillThere(a, aids)
  {
    hide Names, KnownAid;
    forall aid ensures Names(a, aid) <==> aid != "" && aid == KnownAid(a) {
      NamesKnown(a, aid);
    }
    if KnownIn(a, aids) {
      var x :| x in aids && x.aid == KnownAid(a);
      var i :| 0 <= i < |aids| && aids[i] == x;
      assert Names(a, aids[i].aid);
    }
    if i :| 0 <= i < |aids| && Names(a, aids[i].aid) {
      assert aids[i] in aids;
    }
  }

  // ---------------------------------------------------------------- what a pass records

  /** Bound to an artifact of the version, or lost with nothing confident to bind to. */
  ghost predicate Settled(a: Anchor, aids: seq<StampedArtifact>) {
    StillThere(a, aids) || (a.kind.LostAnchor? && forall i: nat :: !Confident(a, aids, i))
  }

  /** The anchor that binds a to this artifact. */
  function BoundTo(a: Anchor, aid: string): Anchor {
    var shown := if a.labelText != "" then a.labelText
                 else if a.fingerprint.Some? && a.fingerprint.value.tag != "" then a.fingerprint.value.tag
                 else "element";
    Anchor(ElementAnchor, "", "", "", aid, "[data-odoc-aid=\"" + aid + "\"]", shown, "", a.fingerprint, a.fallback)
  }

  /** The anchor that says a found nothing. */
  function Unbound(a: Anchor): Anchor {
    Anchor(LostAnchor, "", "", "", "", "", a.labelText, "no_candidate", a.fingerprint, a.fallback)
  }

  /** b is what becomes of an anchor a that names no artifact: bound to its confident target, else lost. */
  ghost predicate Drifts(a: Anchor, b: Anchor, aids: seq<StampedArtifact>) {
    if exists i: nat :: Confident(a, aids, i) then
      exists i: nat :: Confident(a, aids, i) && b == BoundTo(a, aids[i].aid)
    else b == if a.kind.LostAnchor? then a else Unbound(a)
  }

  lemma NextAnchorDrifts(a: Anchor, aids: seq<StampedArtifact>)
    ensures Drifts(a, if NextAnchor(a, aids).Some? then NextAnchor(a, aids).value else a, aids)
    ensures NextAnchor(a, aids).None? ==> a.kind.LostAnchor? && forall i: nat :: !Confident(a, aids, i)
  {
    hide FitsBoth, FitsTag, RebindAid;
    RebindExactly(a, aids);
    if i: nat :| Confident(a, aids, i) {
      assert RebindAid(a, aids) == aids[i].aid;
    } else if i: nat :| Target(a, aids, i) {
      assert !Confident(a, aids, i);
    }
  }

  lemma TargetSame(a: Anchor, b: Anchor, aids: seq<StampedArtifact>)
    requires a.fingerprint == b.fingerprint && a.labelText == b.labelText && a.fallback == b.fallback
    ensures forall i: nat :: Confident(a, aids, i) <==> Confident(b, aids, i)
  {
    forall x ensures FitsTag(a, x) <==> FitsTag(b, x) {
    }
    forall x ensures FitsBoth(a, x) <==> FitsBoth(b, x) {
    }
    hide FitsBoth, FitsTag;
  }

  lemma DriftsSettles(a: Anchor, b: Anchor, aids: seq<StampedArtifact>)
    requires Drifts(a, b, aids)
    ensures Settled(b, aids) && (b.kind.ElementAnchor? || b.kind.LostAnchor?)
  {
    hide FitsBoth, FitsTag, NamesAid, FirstNamed;
    if i: nat :| Confident(a, aids, i) && b == BoundTo(a, aids[i].aid) {
      assert Names(b, aids[i].aid);
    } else {
      TargetSame(a, Unbound(a), aids);
    }
  }

  /** Whatever NextAnchor records is settled, and it records nothing only for a settled anchor. */
  lemma NextAnchorSettles(a: Anchor, aids: seq<StampedArtifact>)
    ensures NextAnchor(a, aids).Some? ==> Settled(NextAnchor(a, aids).value, aids)
    ensures NextAnchor(a, aids).Some? ==>
      NextAnchor(a, aids).value.kind.ElementAnchor? || NextAnchor(a, aids).value.kind.LostAnchor?
    ensures NextAnchor(a, aids).None? ==> Settled(a, aids)
  {
    hide NextAnchor, Drifts, Confident, StillThere;
    NextAnchorDrifts(a, aids);
    if NextAnchor(a, aids).Some? {
      DriftsSettles(a, NextAnchor(a, aids).value, aids);
    }
  }

  lemma FinalizeAnchor(st: FoldView, e: CommentEvent)
    requires e.kind.AnchorChanged? && e.resetStatus == Some(false)
    ensures Finalize(Step(st, e)) == Finalize(st).(anchor := e.anchor)
  {
  }

  /** d is c reconciled at version v: a comment alive there on an element or lost has its snapshot
      changed in the anchor alone, which stays if it names an artifact, is bound to its confident target
      otherwise, and lost if it has none; any other comment is untouched. */
  ghost predicate Reconciled(c: Comment, d: Comment, aids: seq<StampedArtifact>, v: int) {
    if Anchored(c, v) then
      && Anchored(d, v)
      && Settled(Snapshot(d, v).value.anchor.value, aids)
      && (if StillThere(Snapshot(c, v).value.anchor.value, aids) then d == c
          else Drifts(Snapshot(c, v).value.anchor.value, Snapshot(d, v).value.anchor.value, aids))
      && Snapshot(d, v).value == Snapshot(c, v).value.(anchor := Snapshot(d, v).value.anchor)
    else d == c
  }

  lemma CorrectedSnapshot(c: Comment, a: Anchor, v: int, at: string, serial: nat)
    requires GoodLog(Events(c), serial) && IsFiniteVersion(v) && Snapshot(c, v).Some?
    ensures Snapshot(Append(c, ReconcileEvent(a, v, at), serial).0, v)
         == Some(Snapshot(c, v).value.(anchor := Some(a)))
  {
    hide GoodLog, Step, Finalize, FoldEvents, Ordered, LateAt;
    var e := Stamp(ReconcileEvent(a, v, at), serial);
    FreshSerial(Events(c), serial);
    AppendLaw(c, Events(c), e, v);
    FinalizeAnchor(Replay(c, Events(c), v), e);
  }

  lemma ReconcileOneAnchors(c: Comment, aids: seq<StampedArtifact>, v: int, at: string, serial: nat)
    requires GoodLog(Events(c), serial) && IsFiniteVersion(v)
    ensures Reconciled(c, ReconcileOne(c, aids, v, at, serial).0, aids, v)
  {
    hide GoodLog, Snapshot, KnownIn, NextAnchor, RebindAid, Append, ReconcileEvent, StillThere, Drifts, Confident;
    var a := Correction(c, aids, v);
    if Anchored(c, v) {
      KnownExactly(Snapshot(c, v).value.anchor.value, aids);
      NextAnchorSettles(Snapshot(c, v).value.anchor.value, aids);
      NextAnchorDrifts(Snapshot(c, v).value.anchor.value, aids);
    }
    if a.Some? {
      CorrectedSnapshot(c, a.value, v, at, serial);
    }
  }

  lemma ReconcileOneKeepsEarlier(c: Comment, aids: seq<StampedArtifact>, v: int, at: string, serial: nat, w: int)
    requires GoodLog(Events(c), serial) && IsFiniteVersion(v) && IsFiniteVersion(w) && w < v
    ensures Snapshot(ReconcileOne(c, aids, v, at, serial).0, w) == Snapshot(c, w)
  {
    var a := Correction(c, aids, v);
    if a.Some? {
      FreshSerial(Events(c), serial);
      AppendLaw(c, Events(c), Stamp(ReconcileEvent(a.value, v, at), serial), w);
      assert Events(c) != [];
    }
  }

  /** A settled comment is left alone, so reconciling again appends nothing. */
  lemma SettledNeedsNothing(c: Comment, aids: seq<StampedArtifact>, v: int)
    requires Anchored(c, v) ==> Settled(Snapshot(c, v).value.anchor.value, aids)
    ensures Correction(c, aids, v).None?
  {
    hide Snapshot, KnownIn, NextAnchor, StillThere, Confident;
    if Anchored(c, v) {
      KnownExactly(Snapshot(c, v).value.anchor.value, aids);
      if !StillThere(Snapshot(c, v).value.anchor.value, aids) {
        LostStays(Snapshot(c, v).value.anchor.value, aids);
      }
    }
  }

  lemma LostStays(a: Anchor, aids: seq<StampedArtifact>)
    requires a.kind.LostAnchor? && forall i: nat :: !Confident(a, aids, i)
    ensures NextAnchor(a, aids).None?
  {
    hide FitsBoth, FitsTag, RebindAid;
    RebindExactly(a, aids);
    if i: nat :| Target(a, aids, i) {
      assert !Confident(a, aids, i);
    }
  }

  /** The i-th comment of a pass is the pass applied to it at some serial. */
  lemma {:induction false} EachAt(b: Book, pass: Pass, i: nat) returns (n: nat)
    requires i < |b.list| && GoodBook(b)
    ensures b.serial <= n && Each(b, pass).list[i] == Apply(pass, b.list[i], n).0
    ensures GoodLog(Events(b.list[i]), n)
    decreases |b.list|
  {
    hide Apply, GoodLog;
    var front := Book(b.list[..|b.list| - 1], b.serial);
    if i == |b.list| - 1 {
      n := Each(front, pass).serial;
    } else {
      n := EachAt(front, pass, i);
    }
    GoodLogGrows(Events(b.list[i]), b.serial, n);
  }

  /** Reconciling a list reconciles every comment of the migrated list, and keeps its snapshots below
      the version. */
  lemma ReconcileExact(b: Book, aids: seq<StampedArtifact>, v: int, clock: string, i: nat, w: int)
    requires GoodBook(b) && i < |b.list| && IsFiniteVersion(v)
    ensures var c, d := Migrate(b, clock).list[i], Reconcile(b, aids, v, clock).list[i];
      && Reconciled(c, d, aids, ReconcileVersion(v))
      && (IsFiniteVersion(w) && w < ReconcileVersion(v) ==> Snapshot(d, w) == Snapshot(c, w))
      && (Migrated(c) ==> Migrated(d))
  {
    hide GoodLog, Each, Settled, Snapshot;
    EachRemembers(b, MigratePass(clock));
    var m, n := Migrate(b, clock), ReconcileVersion(v);
    var k := EachAt(m, ReconcilePass(aids, n, clock), i);
    ReconcileOneAnchors(m.list[i], aids, n, clock, k);
    if IsFiniteVersion(w) && w < n {
      ReconcileOneKeepsEarlier(m.list[i], aids, n, clock, k, w);
    }
  }

  /** A second reconcile against the same artifacts changes no comment. */
  lemma ReconcileTwice(b: Book, aids: seq<StampedArtifact>, v: int, clock: string, clock': string, i: nat)
    requires GoodBook(b) && i < |b.list| && IsFiniteVersion(v)
    ensures var once := Reconcile(b, aids, v, clock);
      Reconcile(once, aids, v, clock').list[i] == once.list[i]
  {
    var once, n := Reconcile(b, aids, v, clock), ReconcileVersion(v);
    ReconcileExact(b, aids, v, clock, i, 0);
    var _ := EachAt(b, MigratePass(clock), i);
    SettledNeedsNothing(once.list[i], aids, n);
    ReconcileAllRemembers(b, aids, v, clock);
    UnchangedByPasses(once, aids, n, clock', i);
  }

  lemma UnchangedByPasses(b: Book, aids: seq<StampedArtifact>, n: int, clock: string, i: nat)
    requires GoodBook(b) && i < |b.list| && Migrated(b.list[i]) && Correction(b.list[i], aids, n).None?
    ensures Each(Migrate(b, clock), ReconcilePass(aids, n, clock)).list[i] == b.list[i]
  {
    var k := EachAt(b, MigratePass(clock), i);
    MigratedStays(b.list[i], clock, k);
    EachRemembers(b, MigratePass(clock));
    var _ := EachAt(Migrate(b, clock), ReconcilePass(aids, n, clock), i);
  }

  predicate Migrated(c: Comment) {
    (c.events.Some? && Stamped(c.events.value)) || (c.events.None? && c.id == "")
  }

  lemma MigratedStays(c: Comment, clock: string, serial: nat)
    requires Migrated(c)
    ensures EnsureLog(c, clock, serial).0 == c
  {
    if c.events.Some? {
      BackfillStamped(c.events.value, serial);
    }
  }
}
