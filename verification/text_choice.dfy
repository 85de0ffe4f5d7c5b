/** The choice of the search in terms of the two texts alone: which occurrences are looked at, how well each agrees
    with the saved context, and which is taken. */
module TextChoice {
  import opened CommentTypes
  import opened TextIndex
  import opened TextSearch

  // ---------------------------------------------------------------- the occurrences looked at

  /** Where the search goes on after its first k hits, if it starts at from. */
  function Resumes(needle: string, from: nat, hits: seq<nat>, k: nat): nat
    requires k <= |hits|
  {
    if k == 0 then from else hits[k - 1] + |needle|
  }

  /** i is the first occurrence at or behind from. */
  predicate Next(norm: string, needle: string, from: nat, i: nat) {
    from <= i && OccursAt(norm, needle, i) && forall p :: from <= p < i ==> !OccursAt(norm, needle, p)
  }

  predicate NoneLeft(norm: string, needle: string, from: nat) {
    forall p :: from <= p <= |norm| ==> !OccursAt(norm, needle, p)
  }

  /** Each hit is the first occurrence at or behind the end of the one before; there are at most so many, and fewer
      only when no occurrence is left. */
  predicate Walked(norm: string, needle: string, from: nat, most: nat, hits: seq<nat>) {
    && |hits| <= most
    && (forall k :: 0 <= k < |hits| ==> Next(norm, needle, Resumes(needle, from, hits, k), hits[k]))
    && (|hits| < most ==> NoneLeft(norm, needle, Resumes(needle, from, hits, |hits|)))
  }

  lemma {:induction false} SearchWalks(norm: string, needle: string, from: nat, most: nat)
    requires |needle| >= 2
    ensures Walked(norm, needle, from, most, Hits(norm, needle, from, most))
    decreases most
  {
    hide OccursAt, First;
    FirstIsFirst(norm, needle, from);
    if most > 0 && First(norm, needle, from).Some? {
      var i := First(norm, needle, from).value;
      var rest := Hits(norm, needle, i + |needle|, most - 1);
      SearchWalks(norm, needle, i + |needle|, most - 1);
      assert Hits(norm, needle, from, most) == [i] + rest;
      WalkedMore(norm, needle, from, most, i, rest);
    }
  }

  lemma WalkedMore(norm: string, needle: string, from: nat, most: nat, i: nat, rest: seq<nat>)
    requires most > 0 && Next(norm, needle, from, i)
    requires Walked(norm, needle, i + |needle|, most - 1, rest)
    ensures Walked(norm, needle, from, most, [i] + rest)
  {
    hide OccursAt, Next, NoneLeft;
    var hits := [i] + rest;
    forall k | 0 < k <= |hits| ensures Resumes(needle, from, hits, k) == Resumes(needle, i + |needle|, rest, k - 1) {
    }
    forall k | 0 <= k < |hits| ensures Next(norm, needle, Resumes(needle, from, hits, k), hits[k]) {
      if k > 0 {
        assert hits[k] == rest[k - 1];
      }
    }
  }

  // ---------------------------------------------------------------- agreement with the saved context

  /** The last n characters before h, and of the text before, agree; at most 60 are compared. */
  predicate AgreesBefore(norm: string, h: nat, before: string, n: nat) {
    n <= 60 && n <= h <= |norm| && n <= |before| && norm[h - n..h] == before[|before| - n..]
  }

  predicate AgreesAfter(norm: string, end: nat, after: string, n: nat) {
    n <= 60 && end + n <= |norm| && n <= |after| && norm[end..end + n] == after[..n]
  }

  /** n is the greatest number of neighbouring characters that agree. */
  ghost predicate LongestBefore(norm: string, h: nat, before: string, n: nat) {
    AgreesBefore(norm, h, before, n) && forall m: nat :: AgreesBefore(norm, h, before, m) ==> m <= n
  }

  ghost predicate LongestAfter(norm: string, end: nat, after: string, n: nat) {
    AgreesAfter(norm, end, after, n) && forall m: nat :: AgreesAfter(norm, end, after, m) ==> m <= n
  }

  lemma BeforeExactly(norm: string, h: nat, before: string)
    requires h <= |norm|
    ensures LongestBefore(norm, h, before, SuffixLen(norm[h - Clip(h)..h], Tail(before)))
  {
    hide SuffixLen, AgreesBefore;
    var a, b := norm[h - Clip(h)..h], Tail(before);
    SuffixLenLongest(a, b, 0);
    forall m: nat ensures AgreesBefore(norm, h, before, m) <==> m <= |a| && m <= |b| && m <= SuffixLen(a, b) {
      BeforeUpTo(norm, h, before, m);
    }
  }

  lemma ClipIs(n: nat)
    ensures Clip(n) == if n < 60 then n else 60
  {
  }

  lemma BeforeUpTo(norm: string, h: nat, before: string, m: nat)
    requires h <= |norm|
    ensures var a, b := norm[h - Clip(h)..h], Tail(before);
      AgreesBefore(norm, h, before, m) <==> m <= |a| && m <= |b| && m <= SuffixLen(a, b)
  {
    hide SuffixLen, Clip, AgreesBefore;
    ClipIs(h);
    ClipIs(|before|);
    EndsAgree(norm, h, Clip(h), before, Clip(|before|), m);
  }

  lemma EndsAgree(norm: string, h: nat, c: nat, before: string, d: nat, m: nat)
    requires c <= h <= |norm| && d <= |before|
    requires c == (if h < 60 then h else 60) && d == if |before| < 60 then |before| else 60
    ensures var a, b := norm[h - c..h], before[|before| - d..];
      |a| == c && |b| == d && (AgreesBefore(norm, h, before, m) <==> m <= c && m <= d && m <= SuffixLen(a, b))
  {
    hide SuffixLen;
    if m <= c && m <= d {
      SliceEnd(norm, h, c, m);
      SliceTail(before, d, m);
      SuffixLenLongest(norm[h - c..h], before[|before| - d..], m);
    }
  }

  lemma SliceEnd(s: string, h: nat, c: nat, m: nat)
    requires m <= c <= h <= |s|
    ensures var a := s[h - c..h]; |a| == c && a[|a| - m..] == s[h - m..h]
  {
  }

  lemma SliceTail(s: string, c: nat, m: nat)
    requires m <= c <= |s|
    ensures var a := s[|s| - c..]; |a| == c && a[|a| - m..] == s[|s| - m..]
  {
  }

  lemma SliceStart(s: string, i: nat, j: nat, m: nat)
    requires i <= j <= |s| && m <= j - i
    ensures s[i..j][..m] == s[i..i + m]
  {
  }

  lemma AfterExactly(norm: string, end: nat, after: string)
    requires end <= |norm|
    ensures LongestAfter(norm, end, after, PrefixLen(norm[end..end + Clip(|norm| - end)], Head(after)))
  {
    hide PrefixLen, AgreesAfter;
    var a, b := norm[end..end + Clip(|norm| - end)], Head(after);
    PrefixLenLongest(a, b, 0);
    forall m: nat ensures AgreesAfter(norm, end, after, m) <==> m <= |a| && m <= |b| && m <= PrefixLen(a, b) {
      AfterUpTo(norm, end, after, m);
    }
  }

  lemma AfterUpTo(norm: string, end: nat, after: string, m: nat)
    requires end <= |norm|
    ensures var a, b := norm[end..end + Clip(|norm| - end)], Head(after);
      AgreesAfter(norm, end, after, m) <==> m <= |a| && m <= |b| && m <= PrefixLen(a, b)
  {
    hide PrefixLen;
    var a, b := norm[end..end + Clip(|norm| - end)], Head(after);
    if m <= |a| && m <= |b| {
      PrefixLenLongest(a, b, m);
      SliceStart(norm, end, end + Clip(|norm| - end), m);
      SliceStart(after, 0, Clip(|after|), m);
      assert after[0..Clip(|after|)] == b && after[0..m] == after[..m];
    }
  }

  /** The hit at h scores this: the agreeing characters on either side, where they are at least four. */
  ghost predicate Scores(norm: string, needle: string, h: nat, before: string, after: string, score: nat) {
    ScoresAt(norm, h, h + |needle|, before, after, score)
  }

  ghost predicate ScoresAt(norm: string, h: nat, end: nat, before: string, after: string, score: nat) {
    exists n: nat, m: nat :: LongestBefore(norm, h, before, n) && LongestAfter(norm, end, after, m)
                             && score == (if n >= 4 then n else 0) + (if m >= 4 then m else 0)
  }

  lemma ScoreExactly(norm: string, needle: string, h: nat, before: string, after: string, score: nat)
    requires OccursAt(norm, needle, h)
    ensures Scores(norm, needle, h, before, after, score) <==>
      score == Score(norm, needle, h, Tail(before), Head(after))
  {
    hide SuffixLen, PrefixLen, AgreesBefore, AgreesAfter, Clip, Tail, Head;
    BeforeExactly(norm, h, before);
    AfterExactly(norm, h + |needle|, after);
  }

  // ---------------------------------------------------------------- the choice

  ghost predicate ScoresAtMost(norm: string, needle: string, h: nat, before: string, after: string, most: int) {
    forall t: nat :: Scores(norm, needle, h, before, after, t) ==> t <= most
  }

  /** The i-th hit scores s, every hit before it less and no other more. */
  ghost predicate Tops(norm: string, needle: string, hits: seq<nat>, before: string, after: string, i: nat, s: nat) {
    && i < |hits| && Scores(norm, needle, hits[i], before, after, s)
    && forall k :: 0 <= k < |hits| ==>
         ScoresAtMost(norm, needle, hits[k], before, after, s - if k < i then 1 else 0)
  }

  /** The i-th hit is the first of those that score best, and scores more than nothing. */
  ghost predicate Best(norm: string, needle: string, hits: seq<nat>, before: string, after: string, i: nat) {
    exists s: nat :: s > 0 && Tops(norm, needle, hits, before, after, i, s)
  }

  /** What the search takes. A selection or needle of less than two characters is not looked for; without a saved
      context only a single hit is taken; with one, the best hit, and nothing when none scores. */
  ghost predicate Takes(norm: string, anchor: SavedText, hits: seq<nat>, chosen: Option<nat>) {
    var needle := NormalizeNeedle(anchor.text);
    var before, after := NormalizeContext(anchor.contextBefore), NormalizeContext(anchor.contextAfter);
    if |anchor.text| < 2 || |needle| < 2 then chosen == None
    else if before == "" && after == "" then chosen == if |hits| == 1 then Some(hits[0]) else None
    else if chosen.Some? then
      exists i: nat :: i < |hits| && chosen.value == hits[i] && Best(norm, needle, hits, before, after, i)
    else forall i: nat :: !Best(norm, needle, hits, before, after, i)
  }

  lemma AtMostExactly(norm: string, needle: string, h: nat, before: string, after: string, most: int)
    requires OccursAt(norm, needle, h)
    ensures ScoresAtMost(norm, needle, h, before, after, most) <==>
      Score(norm, needle, h, Tail(before), Head(after)) <= most
  {
    hide Score, Scores, Tail, Head, OccursAt;
    forall t: nat ensures Scores(norm, needle, h, before, after, t) <==>
                          t == Score(norm, needle, h, Tail(before), Head(after))
    {
      ScoreExactly(norm, needle, h, before, after, t);
    }
    assert Scores(norm, needle, h, before, after, Score(norm, needle, h, Tail(before), Head(after)));
  }

  lemma BestWins(norm: string, needle: string, hits: seq<nat>, before: string, after: string, i: nat)
    requires AllOccur(norm, needle, hits)
    ensures Wins(norm, needle, hits, Tail(before), Head(after), i) <==> Best(norm, needle, hits, before, after, i)
  {
    hide Score, Scores, ScoresAtMost, Tail, Head, OccursAt;
    if i < |hits| {
      var s: int := Score(norm, needle, hits[i], Tail(before), Head(after));
      forall t: nat ensures Scores(norm, needle, hits[i], before, after, t) <==> t == s {
        ScoreExactly(norm, needle, hits[i], before, after, t);
      }
      forall k | 0 <= k < |hits|
        ensures ScoresAtMost(norm, needle, hits[k], before, after, s - if k < i then 1 else 0) <==>
                Score(norm, needle, hits[k], Tail(before), Head(after)) <= s - if k < i then 1 else 0
      {
        AtMostExactly(norm, needle, hits[k], before, after, s - if k < i then 1 else 0);
      }
      assert Best(norm, needle, hits, before, after, i) <==> s > 0 && Tops(norm, needle, hits, before, after, i, s);
    }
  }

  lemma NoneWins(norm: string, needle: string, hits: seq<nat>, bTail: string, aHead: string)
    requires AllOccur(norm, needle, hits)
    requires forall k :: 0 <= k < |hits| ==> Score(norm, needle, hits[k], bTail, aHead) == 0
    ensures forall i: nat :: !Wins(norm, needle, hits, bTail, aHead, i)
  {
  }

  lemma NothingInEmpty(norm: string, needle: string, hits: seq<nat>)
    requires norm == "" && |needle| >= 2 && AllOccur(norm, needle, hits)
    ensures hits == []
  {
    assert hits != [] ==> OccursAt(norm, needle, hits[0]);
  }

  /** The rule of the search takes exactly this, of exactly these hits. */
  lemma ChoosesExactly(norm: string, anchor: SavedText, chosen: Option<nat>)
    requires Chooses(norm, anchor, chosen)
    ensures exists hits ::
      (|NormalizeNeedle(anchor.text)| >= 2 ==> Walked(norm, NormalizeNeedle(anchor.text), 0, 65, hits))
      && Takes(norm, anchor, hits, chosen)
  {
    hide Hits, Walked, NormalizeNeedle, NormalizeContext, Score, OccursAt, Wins, Best, Tail, Head;
    var needle := NormalizeNeedle(anchor.text);
    var before, after := NormalizeContext(anchor.contextBefore), NormalizeContext(anchor.contextAfter);
    var hits := Hits(norm, needle, 0, MAX_HITS);
    HitsAllOccur(norm, needle);
    forall i: nat ensures Wins(norm, needle, hits, Tail(before), Head(after), i) <==>
                          Best(norm, needle, hits, before, after, i)
    {
      BestWins(norm, needle, hits, before, after, i);
    }
    if |needle| >= 2 {
      SearchWalks(norm, needle, 0, MAX_HITS);
      if norm == "" {
        NothingInEmpty(norm, needle, hits);
      }
    }
    if forall k :: 0 <= k < |hits| ==> Score(norm, needle, hits[k], Tail(before), Head(after)) == 0 {
      NoneWins(norm, needle, hits, Tail(before), Head(after));
    }
    assert Takes(norm, anchor, hits, chosen);
  }
}
