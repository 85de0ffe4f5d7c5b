/** Embedding JSON in a script element: the two line separators the encoder escapes are put back, and the
    markers that would end the element are broken up. */
module LineSep {
  import opened TextPrefix

  const LS := '\U{2028}'
  const PS := '\U{2029}'
  const ESC8 := "\\u2028"
  const ESC9 := "\\u2029"
  const ESC := "\\u202"

  predicate Contains(s: string, p: string) {
    exists i :: 0 <= i <= |s| && StartsWith(s[i..], p)
  }

  /** The rewrite: odd says whether an odd number of backslashes stands right before s. */
  function Rewrite(s: string, odd: bool): string {
    if s == "" then ""
    else if s[0] == '\\' && !odd && StartsWith(s, ESC8) then [LS] + Rewrite(s[6..], false)
    else if s[0] == '\\' && !odd && StartsWith(s, ESC9) then [PS] + Rewrite(s[6..], false)
    else [s[0]] + Rewrite(s[1..], s[0] == '\\' && !odd)
  }

  // ---------------------------------------------------------------- string encoding

  /** A JSON document as its text between strings, which holds no backslash, and its string values. */
  datatype Piece = Between(text: string) | Str(value: string)

  predicate WellFormed(pieces: seq<Piece>) {
    forall p :: p in pieces && p.Between? ==> '\\' !in p.text
  }

  function HexDigit(d: int): char
    requires 0 <= d < 16
  {
    "0123456789abcdef"[d]
  }

  /** One character of a string value, with or without escaping the line separators. */
  function EncodeChar(c: char, escapeSeps: bool): string {
    if c == '"' then "\\\""
    else if c == '\\' then "\\\\"
    else if c == '\n' then "\\n"
    else if c == '\r' then "\\r"
    else if c == '\t' then "\\t"
    else if c as int == 8 then "\\b"
    else if c as int == 12 then "\\f"
    else if (c as int) < 0x20 then "\\u00" + [HexDigit(c as int / 16), HexDigit(c as int % 16)]
    else if c == LS && escapeSeps then ESC8
    else if c == PS && escapeSeps then ESC9
    else [c]
  }

  function EncodeValue(v: string, escapeSeps: bool): string {
    if v == "" then "" else EncodeChar(v[0], escapeSeps) + EncodeValue(v[1..], escapeSeps)
  }

  function Encode(pieces: seq<Piece>, escapeSeps: bool): string {
    if pieces == [] then ""
    else
      (match pieces[0]
       case Between(text) => text
       case Str(v) => "\"" + EncodeValue(v, escapeSeps) + "\"")
      + Encode(pieces[1..], escapeSeps)
  }

  // ---------------------------------------------------------------- the rewrite restores exactly the separators

  lemma Assoc(a: string, b: string, c: string)
    ensures (a + b) + c == a + (b + c)
  {
  }

  lemma RewritePlain(c: char, rest: string, odd: bool)
    requires c != '\\'
    ensures Rewrite([c] + rest, odd) == [c] + Rewrite(rest, false)
  {
    assert ([c] + rest)[1..] == rest;
  }

  lemma {:induction false} RewritePlainText(t: string, rest: string)
    requires '\\' !in t
    ensures Rewrite(t + rest, false) == t + Rewrite(rest, false)
  {
    if t == "" {
      assert t + rest == rest;
    } else {
      RewritePlainText(t[1..], rest);
      RewritePlain(t[0], t[1..] + rest, false);
      assert t == [t[0]] + t[1..];
      Assoc([t[0]], t[1..], rest);
      Assoc([t[0]], t[1..], Rewrite(rest, false));
    }
  }

  /** A backslash that starts a two-character escape. */
  lemma RewriteEscape(c: char, rest: string)
    requires c != 'u'
    ensures Rewrite(['\\', c] + rest, false) == ['\\', c] + Rewrite(rest, false)
  {
    var s := ['\\', c] + rest;
    assert s[1] != ESC8[1] && s[1] != ESC9[1];
    assert s[1..] == [c] + rest;
    assert ([c] + rest)[1..] == rest;
  }

  lemma RewriteControl(x: char, y: char, rest: string)
    requires x != '\\' && y != '\\'
    ensures Rewrite("\\u00" + [x, y] + rest, false) == "\\u00" + [x, y] + Rewrite(rest, false)
  {
    var s := "\\u00" + [x, y] + rest;
    assert s[2] != ESC8[2] && s[2] != ESC9[2];
    var tail := "u00" + [x, y];
    assert s[1..] == ['u'] + ("00" + [x, y] + rest);
    RewritePlain('u', "00" + [x, y] + rest, true);
    RewritePlainText("00" + [x, y], rest);
  }

  lemma RewriteSeparator(esc: string, c: char, rest: string)
    requires (esc == ESC8 && c == LS) || (esc == ESC9 && c == PS)
    ensures Rewrite(esc + rest, false) == [c] + Rewrite(rest, false)
  {
    var s := esc + rest;
    assert s[..6] == esc && s[6..] == rest;
    assert ESC8[5] != ESC9[5];
  }

  lemma RewriteChar(c: char, rest: string)
    ensures Rewrite(EncodeChar(c, true) + rest, false) == EncodeChar(c, false) + Rewrite(rest, false)
  {
    hide Rewrite;
    if c == LS {
      RewriteSeparator(ESC8, LS, rest);
    } else if c == PS {
      RewriteSeparator(ESC9, PS, rest);
    } else if |EncodeChar(c, true)| == 1 {
      RewritePlain(c, rest, false);
    } else if |EncodeChar(c, true)| == 2 {
      RewriteEscape(EncodeChar(c, true)[1], rest);
    } else {
      RewriteControl(HexDigit(c as int / 16), HexDigit(c as int % 16), rest);
    }
  }

  lemma {:induction false} RewriteValue(v: string, rest: string)
    ensures Rewrite(EncodeValue(v, true) + rest, false) == EncodeValue(v, false) + Rewrite(rest, false)
  {
    if v == "" {
      assert EncodeValue(v, true) + rest == rest;
    } else {
      RewriteValue(v[1..], rest);
      RewriteFirst(EncodeChar(v[0], true), EncodeChar(v[0], false), v[0], v[1..], rest);
    }
  }

  lemma RewriteFirst(e: string, f: string, c: char, v: string, rest: string)
    requires e == EncodeChar(c, true) && f == EncodeChar(c, false)
    requires Rewrite(EncodeValue(v, true) + rest, false) == EncodeValue(v, false) + Rewrite(rest, false)
    ensures Rewrite((e + EncodeValue(v, true)) + rest, false) == (f + EncodeValue(v, false)) + Rewrite(rest, false)
  {
    RewriteChar(c, EncodeValue(v, true) + rest);
    Assoc(e, EncodeValue(v, true), rest);
    Assoc(f, EncodeValue(v, false), Rewrite(rest, false));
  }

  lemma RewriteNothing(odd: bool)
    ensures Rewrite("", odd) == ""
  {
  }

  /** For every document, rewriting the encoding that escapes U+2028 and U+2029 gives the encoding that leaves
      them raw; a value that spells the escape out keeps its backslashes. */
  lemma {:induction false} RewriteRestoresSeparators(pieces: seq<Piece>)
    requires WellFormed(pieces)
    ensures Rewrite(Encode(pieces, true), false) == Encode(pieces, false)
  {
    hide EncodeValue, Rewrite;
    RewriteNothing(false);
    if pieces != [] {
      RewriteRestoresSeparators(pieces[1..]);
      var rest := Encode(pieces[1..], true);
      match pieces[0]
      case Between(text) =>
        RewritePlainText(text, rest);
      case Str(v) =>
        RewritePlainText("\"", EncodeValue(v, true) + ("\"" + rest));
        RewriteValue(v, "\"" + rest);
        RewritePlainText("\"", rest);
        assert "\"" + EncodeValue(v, true) + "\"" + rest == "\"" + (EncodeValue(v, true) + ("\"" + rest));
        assert "\"" + EncodeValue(v, false) + "\"" + Encode(pieces[1..], false)
            == "\"" + (EncodeValue(v, false) + ("\"" + Encode(pieces[1..], false)));
    }
  }

  lemma EscapesStart(s: string)
    ensures StartsWith(s, ESC8) || StartsWith(s, ESC9) ==> StartsWith(s, ESC)
  {
    assert |s| >= 6 ==> s[..5] == s[..6][..5];
    assert ESC8[..5] == ESC && ESC9[..5] == ESC;
  }

  lemma {:induction false} NothingToRewrite(s: string, odd: bool)
    requires !Contains(s, ESC)
    ensures Rewrite(s, odd) == s
  {
    if s != "" {
      assert s[0..] == s;
      assert !StartsWith(s[0..], ESC);
      EscapesStart(s);
      forall i | 0 <= i <= |s[1..]| ensures !StartsWith(s[1..][i..], ESC) {
        assert s[1..][i..] == s[i + 1..];
      }
      NothingToRewrite(s[1..], s[0] == '\\' && !odd);
    }
  }

  /** unescapeLineSep: one forward pass that counts the backslashes before the current index. */
  method UnescapeLineSep(s: string) returns (r: string)
    ensures r == Rewrite(s, false)
  {
    hide Rewrite;
    RewriteNothing(true);
    RewriteNothing(false);
    if !Contains(s, ESC) {
      NothingToRewrite(s, false);
      return s;
    }
    r := "";
    var bs, i := 0, 0;
    assert s[0..] == s;
    while i < |s|
      invariant 0 <= i <= |s| && bs >= 0
      invariant r + Rewrite(s[i..], bs % 2 == 1) == Rewrite(s, false)
    {
      RewriteAt(s, i, bs % 2 == 1);
      if s[i] == '\\' && bs % 2 == 0 {
        if StartsWith(s[i..], ESC8) {
          Assoc(r, [LS], Rewrite(s[i + 6..], false));
          r := r + [LS];
          i, bs := i + 6, 0;
          continue;
        }
        if StartsWith(s[i..], ESC9) {
          Assoc(r, [PS], Rewrite(s[i + 6..], false));
          r := r + [PS];
          i, bs := i + 6, 0;
          continue;
        }
      }
      Assoc(r, [s[i]], Rewrite(s[i + 1..], s[i] == '\\' && bs % 2 == 0));
      bs := if s[i] == '\\' then bs + 1 else 0;
      r := r + [s[i]];
      i := i + 1;
    }
  }

  lemma RewriteAt(s: string, i: nat, odd: bool)
    requires i < |s|
    ensures Rewrite(s[i..], odd) ==
      if s[i] == '\\' && !odd && StartsWith(s[i..], ESC8) then [LS] + Rewrite(s[i + 6..], false)
      else if s[i] == '\\' && !odd && StartsWith(s[i..], ESC9) then [PS] + Rewrite(s[i + 6..], false)
      else [s[i]] + Rewrite(s[i + 1..], s[i] == '\\' && !odd)
  {
    assert s[i..][1..] == s[i + 1..];
    if |s[i..]| >= 6 {
      assert s[i..][6..] == s[i + 6..];
    }
  }

  // ---------------------------------------------------------------- breaking up the markers

  /** All occurrences replaced, left to right, none overlapping. */
  function ReplaceAll(s: string, old_: string, new_: string): string
    requires old_ != ""
  {
    if s == "" then ""
    else if StartsWith(s, old_) then new_ + ReplaceAll(s[|old_|..], old_, new_)
    else [s[0]] + ReplaceAll(s[1..], old_, new_)
  }

  /** A marker and its broken form: both start with '<' and have no other, and differ right after it. */
  predicate Breaks(marker: string, broken: string) {
    && |marker| >= 2 && |broken| >= 2 && marker[0] == '<' && broken[0] == '<'
    && '<' !in marker[1..] && '<' !in broken[1..] && broken[1] == '\\'
  }

  lemma StartsBroken(s: string, marker: string, broken: string)
    requires Breaks(marker, broken)
    ensures StartsWith(s, marker) ==> |ReplaceAll(s, marker, broken)| > 0 && ReplaceAll(s, marker, broken)[0] == '<'
  {
    if StartsWith(s, marker) {
      assert s != "";
      assert ReplaceAll(s, marker, broken) == broken + ReplaceAll(s[|marker|..], marker, broken);
    }
  }

  lemma Beyond(a: string, b: string, p: nat)
    requires |a| <= p <= |a| + |b|
    ensures (a + b)[p..] == b[p - |a|..]
  {
  }

  /** A tail without '<' in the result was already there in the input. */
  lemma {:induction false} TailWasThere(s: string, marker: string, broken: string, tail: string)
    requires Breaks(marker, broken) && '<' !in tail
    requires StartsWith(ReplaceAll(s, marker, broken), tail)
    ensures StartsWith(s, tail)
  {
    if tail != "" {
      var out := ReplaceAll(s, marker, broken);
      assert out[0] == tail[0];
      assert tail[0] in tail;
      StartsBroken(s, marker, broken);
      assert out[1..] == ReplaceAll(s[1..], marker, broken);
      assert out[1..][..|tail| - 1] == tail[1..];
      TailWasThere(s[1..], marker, broken, tail[1..]);
      assert s[..|tail|] == [s[0]] + s[1..][..|tail| - 1];
    }
  }

  /** Replacing brings in no marker: one found in the result was in the input, and is not the replaced one. */
  lemma {:induction false} MarkerWasThere(s: string, marker: string, broken: string, q: string, p: nat)
    requires Breaks(marker, broken) && |q| >= 2 && q[0] == '<' && '<' !in q[1..] && q[1] != '\\'
    requires p <= |ReplaceAll(s, marker, broken)| && StartsWith(ReplaceAll(s, marker, broken)[p..], q)
    ensures q != marker && Contains(s, q)
    decreases |s|
  {
    hide Contains;
    var out := ReplaceAll(s, marker, broken);
    assert out[p] == out[p..][..|q|][0] == '<' && out[p + 1] == out[p..][..|q|][1] == q[1];
    if StartsWith(s, marker) {
      var rest := s[|marker|..];
      assert forall k :: 1 <= k < |broken| ==> out[k] == broken[k] && broken[k] in broken[1..];
      assert p != 0 && p >= |broken|;
      Beyond(broken, ReplaceAll(rest, marker, broken), p);
      MarkerWasThere(rest, marker, broken, q, p - |broken|);
      ContainsLater(s, |marker|, q);
    } else if p == 0 {
      assert out[1..] == ReplaceAll(s[1..], marker, broken);
      assert out[1..][..|q| - 1] == q[1..];
      TailWasThere(s[1..], marker, broken, q[1..]);
      assert s[..|q|] == [s[0]] + s[1..][..|q| - 1] == q;
      ContainsHere(s, q);
    } else {
      Beyond([s[0]], ReplaceAll(s[1..], marker, broken), p);
      MarkerWasThere(s[1..], marker, broken, q, p - 1);
      ContainsLater(s, 1, q);
    }
  }

  lemma ContainsHere(s: string, q: string)
    requires StartsWith(s, q)
    ensures Contains(s, q)
  {
    assert s[0..] == s;
  }

  lemma ContainsLater(s: string, k: nat, q: string)
    requires k <= |s| && Contains(s[k..], q)
    ensures Contains(s, q)
  {
    var i :| 0 <= i <= |s[k..]| && StartsWith(s[k..][i..], q);
    assert s[k..][i..] == s[k + i..];
  }

  const END_MARKER := "</script>"
  const END_BROKEN := "<\\/script>"
  const COMMENT_MARKER := "<!--"
  const COMMENT_BROKEN := "<\\!--"

  /** What an HTML tokenizer takes for the end tag of a script element (section 13.2.5.17 of the HTML standard):
      the name in any case, then white space, "/" or ">". */
  predicate IsEndTag(w: string) {
    && |w| == 9 && w[0] == '<' && w[1] == '/'
    && (forall k :: 2 <= k < 8 ==> Lower(w[k]) == "</script"[k])
    && (w[8] == '>' || w[8] == '/' || w[8] == ' ' || w[8] == '\t' || w[8] == '\n' || w[8] == '\r' || w[8] as int == 12)
  }

  /** Some end tag stands in s. */
  ghost predicate HasEndTag(s: string) {
    exists w :: IsEndTag(w) && Contains(s, w)
  }

  /** One that is not spelled the way the rewrite looks for. */
  ghost predicate HasOtherEndTag(s: string) {
    exists w :: IsEndTag(w) && w != END_MARKER && Contains(s, w)
  }

  lemma EndTagShape(w: string)
    requires IsEndTag(w)
    ensures '<' !in w[1..] && w[1] == '/'
  {
    forall k | 1 <= k < 9 ensures w[k] != '<' {
      assert 2 <= k < 8 ==> Lower(w[k]) == "</script"[k];
    }
  }

  lemma HeadDiffers(s: string, p: string)
    requires s != "" && p != "" && s[0] != p[0]
    ensures !StartsWith(s, p)
  {
    assert |p| <= |s| ==> s[..|p|][0] == s[0];
  }

  /** A tail without '<' is copied. */
  lemma {:induction false} TailStays(s: string, marker: string, broken: string, tail: string)
    requires Breaks(marker, broken) && '<' !in tail && StartsWith(s, tail)
    ensures StartsWith(ReplaceAll(s, marker, broken), tail)
  {
    if tail != "" {
      assert s[0] == tail[0] && tail[0] in tail;
      HeadDiffers(s, marker);
      assert s[1..][..|tail| - 1] == s[..|tail|][1..];
      TailStays(s[1..], marker, broken, tail[1..]);
      var out := ReplaceAll(s, marker, broken);
      assert out[1..] == ReplaceAll(s[1..], marker, broken);
      assert out[..|tail|] == [s[0]] + out[1..][..|tail| - 1];
    }
  }

  lemma StartsDiffer(s: string, marker: string, q: string)
    requires StartsWith(s, q) && StartsWith(s, marker) && |marker| <= |q|
    ensures q[..|marker|] == marker
  {
    assert s[..|q|][..|marker|] == s[..|marker|];
  }

  lemma InsideMarker(s: string, marker: string, i: nat)
    requires StartsWith(s, marker) && 0 < i < |marker| && '<' !in marker[1..]
    ensures s[i] != '<'
  {
    assert s[i] == s[..|marker|][i] == marker[1..][i - 1];
  }

  /** A text with one '<', at its start, that is not the marker's is still there after the replacing. */
  lemma {:induction false} OtherStays(s: string, marker: string, broken: string, q: string, i: nat)
    requires Breaks(marker, broken) && |marker| <= |q| && q[0] == '<' && '<' !in q[1..] && q[..|marker|] != marker
    requires i <= |s| && StartsWith(s[i..], q)
    ensures Contains(ReplaceAll(s, marker, broken), q)
    decreases |s|
  {
    hide Contains;
    var out := ReplaceAll(s, marker, broken);
    assert s[i] == s[i..][..|q|][0] == '<';
    if StartsWith(s, marker) {
      var n := |marker|;
      assert s[0..] == s;
      if i == 0 { StartsDiffer(s, marker, q); }
      if i < n { InsideMarker(s, marker, i); }
      assert s[n..][i - n..] == s[i..];
      OtherStays(s[n..], marker, broken, q, i - n);
      assert out[|broken|..] == ReplaceAll(s[n..], marker, broken);
      ContainsLater(out, |broken|, q);
    } else {
      assert out[1..] == ReplaceAll(s[1..], marker, broken);
      if i == 0 {
        assert s[0..] == s && s[1..][..|q| - 1] == s[..|q|][1..];
        TailStays(s[1..], marker, broken, q[1..]);
        assert out[..|q|] == [s[0]] + out[1..][..|q| - 1];
        ContainsHere(out, q);
      } else {
        assert s[1..][i - 1..] == s[i..];
        OtherStays(s[1..], marker, broken, q, i - 1);
        ContainsLater(out, 1, q);
      }
    }
  }

  /** End tags after one replacing: those that were there, but for the marker itself. */
  lemma EndTagKept(s: string, marker: string, broken: string, w: string)
    requires Breaks(marker, broken) && IsEndTag(w) && |marker| <= 9 && (|marker| == 9 || marker[1] != '/')
    ensures Contains(ReplaceAll(s, marker, broken), w) <==> w != marker && Contains(s, w)
  {
    EndTagShape(w);
    var t := ReplaceAll(s, marker, broken);
    if Contains(t, w) {
      var p :| 0 <= p <= |t| && StartsWith(t[p..], w);
      MarkerWasThere(s, marker, broken, w, p);
    }
    if w != marker && Contains(s, w) {
      var i :| 0 <= i <= |s| && StartsWith(s[i..], w);
      if |marker| == 9 {
        assert w[..9] == w;
      } else {
        assert w[..|marker|][1] == '/';
      }
      OtherStays(s, marker, broken, w, i);
    }
  }

  lemma MarkersBreak()
    ensures Breaks(END_MARKER, END_BROKEN) && Breaks(COMMENT_MARKER, COMMENT_BROKEN)
    ensures |END_MARKER| == 9 && |COMMENT_MARKER| == 4 && COMMENT_MARKER[1] == '!'
  {
  }

  /** The bytes put into the page for a document. */
  function ForScript(json: string): string {
    ReplaceAll(ReplaceAll(Rewrite(json, false), END_MARKER, END_BROKEN), COMMENT_MARKER, COMMENT_BROKEN)
  }

  /** The script element can be closed from inside exactly when the data spells its end tag in any way but the
      one that is looked for: another case, or white space or a slash before ">". */
  lemma ScriptClosedFromInside(json: string)
    ensures HasEndTag(ForScript(json)) <==> HasOtherEndTag(Rewrite(json, false))
  {
    hide IsEndTag, Contains, Breaks, Rewrite, ReplaceAll;
    MarkersBreak();
    var s := Rewrite(json, false);
    var t := ReplaceAll(s, END_MARKER, END_BROKEN);
    forall w | IsEndTag(w) ensures Contains(ForScript(json), w) <==> w != END_MARKER && Contains(s, w) {
      EndTagKept(s, END_MARKER, END_BROKEN, w);
      EndTagKept(t, COMMENT_MARKER, COMMENT_BROKEN, w);
      NotComment(w);
    }
  }

  lemma NotComment(w: string)
    requires IsEndTag(w)
    ensures w != COMMENT_MARKER
  {
  }

  /** A comment opener never gets into the page, nor does the end tag as it is usually spelled. */
  lemma MarkersBroken(json: string)
    ensures !Contains(ForScript(json), COMMENT_MARKER) && !Contains(ForScript(json), END_MARKER)
  {
    hide Rewrite, ReplaceAll;
    MarkersBreak();
    var s := Rewrite(json, false);
    var t := ReplaceAll(s, END_MARKER, END_BROKEN);
    var u := ReplaceAll(t, COMMENT_MARKER, COMMENT_BROKEN);
    forall p | 0 <= p <= |u| ensures !StartsWith(u[p..], COMMENT_MARKER) {
      if StartsWith(u[p..], COMMENT_MARKER) { MarkerWasThere(t, COMMENT_MARKER, COMMENT_BROKEN, COMMENT_MARKER, p); }
    }
    UsualEndTag();
    EndTagKept(s, END_MARKER, END_BROKEN, END_MARKER);
    EndTagKept(t, COMMENT_MARKER, COMMENT_BROKEN, END_MARKER);
  }

  lemma UsualEndTag()
    ensures IsEndTag(END_MARKER)
  {
  }

  /** The same from the encoder to the page: what decides is the document with its separators raw. */
  lemma DocumentClosedFromInside(pieces: seq<Piece>)
    requires WellFormed(pieces)
    ensures HasEndTag(ForScript(Encode(pieces, true))) <==> HasOtherEndTag(Encode(pieces, false))
  {
    hide Encode, ForScript, Rewrite, HasEndTag, HasOtherEndTag;
    RewriteRestoresSeparators(pieces);
    ScriptClosedFromInside(Encode(pieces, true));
  }

  /** Characters that are written as they are. */
  predicate Literal(v: string) {
    forall k :: 0 <= k < |v| ==> '#' <= v[k] <= '['
  }

  lemma {:induction false} LiteralValue(v: string)
    requires Literal(v)
    ensures EncodeValue(v, false) == v
  {
    if v != "" {
      LiteralValue(v[1..]);
      assert v == [v[0]] + v[1..];
    }
  }

  lemma LiteralDocument(v: string)
    requires Literal(v)
    ensures Encode([Str(v)], false) == "\"" + v + "\"" && Contains(Encode([Str(v)], false), v)
  {
    hide EncodeValue, Literal, Contains;
    LiteralValue(v);
    var json := "\"" + v + "\"";
    assert [Str(v)][1..] == [] && json + Encode([], false) == json;
    assert json[1..][..|v|] == v;
    ContainsHere(json[1..], v);
    ContainsLater(json, 1, v);
  }

  lemma UpperIsEndTag()
    ensures IsEndTag("</SCRIPT>") && "</SCRIPT>" != END_MARKER && Literal("</SCRIPT>")
  {
    assert "</SCRIPT>"[2] != END_MARKER[2];
  }

  /** A text value in capitals closes the element. */
  lemma UpperCaseCloses()
    ensures HasEndTag(ForScript(Encode([Str("</SCRIPT>")], true)))
  {
    hide IsEndTag, Contains, ForScript, Encode, Literal;
    UpperIsEndTag();
    LiteralDocument("</SCRIPT>");
    DocumentClosedFromInside([Str("</SCRIPT>")]);
  }
}
