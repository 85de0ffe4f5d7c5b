/** The in-process store: versions, drafts and assets of all slugs share string-keyed maps, and listings are
    prefix scans. The store refines maps keyed by (slug, version), slug and (slug, hash). */
module MemoryStore {
  import opened CommentTypes
  import opened StorageKeys

  const MIN_INT := -0x8000_0000_0000_0000
  const MAX_INT := 0x7fff_ffff_ffff_ffff

  predicate IsInt(n: int) {
    MIN_INT <= n <= MAX_INT
  }

  /** 64-bit two's-complement overflow. */
  function Wrap(n: int): int {
    (n - MIN_INT) % 0x1_0000_0000_0000_0000 + MIN_INT
  }

  // ---------------------------------------------------------------- decimal text

  predicate IsDigit(c: char) {
    '0' <= c <= '9'
  }

  function DigitChar(d: int): char
    requires 0 <= d < 10
  {
    '0' + d as char
  }

  function Digits(n: nat): string {
    if n == 0 then "" else Digits(n / 10) + [DigitChar(n % 10)]
  }

  function Decimal(n: int): string
    requires IsInt(n)
  {
    if n == 0 then "0" else if n == MIN_INT then "-" else if n < 0 then "-" + Digits(-n) else Digits(n)
  }

  /** The accumulator after the digits of s. */
  function Accumulated(s: string): Option<int> {
    if s == "" then Some(0)
    else
      var front := Accumulated(s[..|s| - 1]);
      if front.None? || !IsDigit(s[|s| - 1]) then None
      else Some(Wrap(front.value * 10 + (s[|s| - 1] as int - '0' as int)))
  }

  function Parsed(s: string): Option<int> {
    if s == "" then None else Accumulated(s)
  }

  lemma {:induction false} DigitsAccumulate(n: nat)
    requires n <= MAX_INT
    ensures Accumulated(Digits(n)) == Some(n)
    ensures n > 0 ==> Digits(n) != "" && forall k :: 0 <= k < |Digits(n)| ==> IsDigit(Digits(n)[k])
  {
    if n > 0 {
      DigitsAccumulate(n / 10);
      assert Digits(n)[..|Digits(n)| - 1] == Digits(n / 10);
      assert n == n / 10 * 10 + n % 10;
    }
  }

  /** Parsing undoes printing on every version number, and refuses every negative one. */
  lemma ParseUndoesPrint(n: int)
    requires IsInt(n)
    ensures Parsed(Decimal(n)) == if n >= 0 then Some(n) else None
  {
    if n == 0 {
      assert "0"[..0] == "";
      assert Accumulated("0") == Some(0);
    } else if n > 0 {
      DigitsAccumulate(n);
    } else {
      assert Decimal(n)[..1] == "-";
      assert "-"[..0] == "";
      NoDigit(Decimal(n), 0);
    }
  }

  lemma {:induction false} NoDigit(s: string, k: nat)
    requires k < |s| && !IsDigit(s[k])
    ensures Accumulated(s) == None
  {
    if k < |s| - 1 {
      NoDigit(s[..|s| - 1], k);
    }
  }

  /** The draft's suffix is no number, so a listing never shows it. */
  lemma DraftIsNoVersion()
    ensures Parsed("draft") == None
  {
    NoDigit("draft", 0);
  }

  function Pow10(k: nat): nat {
    if k == 0 then 1 else 10 * Pow10(k - 1)
  }

  lemma TwentyBytesSuffice(n: int, k: nat)
    requires IsInt(n) && k == 19
    ensures n < Pow10(k)
  {
    assert Pow10(4) == 10_000;
    assert Pow10(8) == 100_000_000;
    assert Pow10(12) == 1_000_000_000_000;
    assert Pow10(16) == 10_000_000_000_000_000;
    assert Pow10(19) == 10_000_000_000_000_000_000;
  }

  lemma DigitsStep(n: nat, k: nat)
    requires 0 < n < Pow10(k)
    ensures 0 <= n / 10 < n && k > 0 && n / 10 < Pow10(k - 1)
    ensures Digits(n) == Digits(n / 10) + [DigitChar(n % 10)]
  {
  }

  lemma NoDigits()
    ensures Digits(0) == ""
  {
  }

  /** The digit loop of itoa: backwards from the end of the buffer. */
  method WriteDigits(b: array<char>, whole: nat) returns (i: int)
    requires b.Length > 0 && whole < Pow10(b.Length - 1)
    modifies b
    ensures 1 <= i <= b.Length && b[i..] == Digits(whole)
  {
    hide Digits, Pow10;
    NoDigits();
    var n := whole;
    i := b.Length;
    while n > 0
      invariant 1 <= i <= b.Length && 0 <= n < Pow10(i - 1)
      invariant Digits(whole) == Digits(n) + b[i..]
    {
      DigitsStep(n, i - 1);
      ghost var after := b[i..];
      i := i - 1;
      b[i] := DigitChar(n % 10);
      assert b[i..] == [DigitChar(n % 10)] + after;
      assert Digits(n / 10) + ([DigitChar(n % 10)] + after) == Digits(n) + after;
      n := n / 10;
    }
  }

  /** The absolute value as the program computes it: negating the smallest integer overflows back to itself. */
  function Magnitude(n: int): int {
    if n < 0 then Wrap(-n) else n
  }

  lemma MagnitudeExact(n: int)
    requires IsInt(n)
    ensures Magnitude(n) == if n == MIN_INT then n else if n < 0 then -n else n
  {
  }

  lemma SignThenDigits(n: int, k: nat)
    requires IsInt(n) && n != 0 && k == 19
    ensures Magnitude(n) < Pow10(k)
    ensures Decimal(n) == (if n < 0 then "-" else "") + (if Magnitude(n) > 0 then Digits(Magnitude(n)) else "")
  {
    MagnitudeExact(n);
    TwentyBytesSuffice(Magnitude(n), k);
  }

  /** itoa: digits in a 20-byte buffer, then the sign. */
  method Itoa(n0: int) returns (r: string)
    requires IsInt(n0)
    ensures r == Decimal(n0)
  {
    if n0 == 0 {
      return "0";
    }
    var neg := n0 < 0;
    var n := Magnitude(n0);
    var b := new char[20];
    var i := b.Length;
    SignThenDigits(n0, b.Length - 1);
    if n > 0 {
      i := WriteDigits(b, n);
    }
    assert b[i..] == if n > 0 then Digits(n) else "";
    if neg {
      ghost var digits := b[i..];
      i := i - 1;
      b[i] := '-';
      assert b[i..] == "-" + digits;
    }
    r := b[i..];
  }

  /** atoi: digits only, and at least one. */
  method Atoi(s: string) returns (n: int, ok: bool)
    ensures ok == Parsed(s).Some? && n == if ok then Parsed(s).value else 0
  {
    if s == "" {
      return 0, false;
    }
    n := 0;
    var i := 0;
    while i < |s|
      invariant 0 <= i <= |s| && Accumulated(s[..i]) == Some(n)
    {
      if s[i] < '0' || s[i] > '9' {
        NoDigit(s, i);
        return 0, false;
      }
      assert s[..i + 1][..i] == s[..i];
      n := Wrap(n * 10 + (s[i] as int - '0' as int));
      i := i + 1;
    }
    assert s[..i] == s;
    ok := true;
  }

  // ---------------------------------------------------------------- keys

  const NUL := '\0'

  predicate NulFree(slug: string) {
    NUL !in slug
  }

  predicate GoodDoc(d: Blob) {
    NulFree(d.slug) && (d.Version? ==> d.n <= MAX_INT)
  }

  function Prefix(slug: string): string {
    slug + [NUL]
  }

  function Suffix(d: Blob): string
    requires GoodDoc(d)
  {
    if d.Version? then Decimal(d.n) else "draft"
  }

  function DocKey(d: Blob): string
    requires GoodDoc(d)
  {
    Prefix(d.slug) + Suffix(d)
  }

  function AssetKey(a: Asset): string {
    Prefix(a.slug) + a.sha
  }

  /** The test of every prefix scan. */
  predicate ScanHits(key: string, slug: string) {
    |key| > |Prefix(slug)| && key[..|Prefix(slug)|] == Prefix(slug)
  }

  /** The first NUL of a key ends its slug. */
  lemma SlugOfKey(slug: string, other: string, rest: string, more: string)
    requires NulFree(slug) && NulFree(other)
    requires Prefix(slug) + rest == Prefix(other) + more
    ensures slug == other && rest == more
  {
    var key := Prefix(slug) + rest;
    assert key[|slug|] == NUL && key[|other|] == NUL;
    assert forall k :: 0 <= k < |slug| ==> key[k] == slug[k];
    assert forall k :: 0 <= k < |other| ==> key[k] == other[k];
    assert !(|slug| < |other|) && !(|other| < |slug|);
    assert slug == key[..|slug|] && other == key[..|other|];
    assert rest == key[|slug| + 1..] && more == key[|other| + 1..];
  }

  /** A scan for a slug hits exactly the keys of that slug that have something after the NUL. */
  lemma ScanExact(slug: string, other: string, rest: string)
    requires NulFree(slug) && NulFree(other)
    ensures ScanHits(Prefix(other) + rest, slug) <==> slug == other && rest != ""
    ensures slug == other ==> (Prefix(other) + rest)[|Prefix(slug)|..] == rest
  {
    var key := Prefix(other) + rest;
    if ScanHits(key, slug) {
      assert key == Prefix(slug) + key[|Prefix(slug)|..];
      SlugOfKey(slug, other, key[|Prefix(slug)|..], rest);
    }
  }

  lemma SuffixNonEmpty(d: Blob)
    requires GoodDoc(d)
    ensures Suffix(d) != ""
    ensures Parsed(Suffix(d)) == if d.Version? then Some(d.n) else None
  {
    match d
    case Version(_, n) => ParseUndoesPrint(n);
    case Draft(_) => DraftIsNoVersion();
  }

  /** Different documents have different keys. */
  lemma DocKeyInjective(d: Blob, e: Blob)
    requires GoodDoc(d) && GoodDoc(e) && DocKey(d) == DocKey(e)
    ensures d == e
  {
    SlugOfKey(d.slug, e.slug, Suffix(d), Suffix(e));
    SuffixNonEmpty(d);
    SuffixNonEmpty(e);
  }

  lemma AssetKeyInjective(a: Asset, b: Asset)
    requires NulFree(a.slug) && NulFree(b.slug) && AssetKey(a) == AssetKey(b)
    ensures a == b
  {
    SlugOfKey(a.slug, b.slug, a.sha, b.sha);
  }

  /** Slugs must not contain NUL: the scan for one slug hits the draft of another that extends it by a NUL. */
  lemma NulSlugsCollide()
    ensures ScanHits(Prefix("a" + [NUL]) + "draft", "a")
  {
    assert (Prefix("a" + [NUL]) + "draft")[..2] == Prefix("a");
  }

  // ---------------------------------------------------------------- the store

  datatype Meta = Meta(slug: string, sha: string, mime: string, size: int, originalName: string, created: string)

  predicate Ascending(s: seq<int>) {
    forall i, j :: 0 <= i < j < |s| ==> s[i] < s[j]
  }

  /** Where a number goes in an ascending list. */
  method InsertAscending(s: seq<int>, n: int) returns (r: seq<int>)
    requires Ascending(s) && n !in s
    ensures Ascending(r) && forall m :: m in r <==> m in s || m == n
  {
    var k := 0;
    while k < |s| && s[k] < n
      invariant 0 <= k <= |s| && forall j :: 0 <= j < k ==> s[j] < n
    {
      k := k + 1;
    }
    r := s[..k] + [n] + s[k..];
    InsertedAscends(s, n, k, r);
  }

  lemma InsertedAscends(s: seq<int>, n: int, k: int, r: seq<int>)
    requires Ascending(s) && n !in s && 0 <= k <= |s| && r == s[..k] + [n] + s[k..]
    requires (forall j :: 0 <= j < k ==> s[j] < n) && (k < |s| ==> n <= s[k])
    ensures Ascending(r) && forall m :: m in r <==> m in s || m == n
  {
    assert forall j :: k <= j < |s| ==> n < s[j] by {
      assert k < |s| ==> s[k] in s;
    }
    assert s == s[..k] + s[k..];
  }

  /** The keys of a map that a scan for a slug does not hit. */
  function Unhit(m: map<string, string>, slug: string): map<string, string> {
    map k | k in m && !ScanHits(k, slug) :: m[k]
  }

  /** What DeleteDoc leaves of the documents and of the assets. */
  function OtherDocs(docs: map<Blob, string>, slug: string): map<Blob, string> {
    map d | d in docs && d.slug != slug :: docs[d]
  }

  function OtherAssets(held: map<Asset, string>, slug: string): map<Asset, string> {
    map a | a in held && (a.slug != slug || a.sha == "") :: held[a]
  }

  /** The delete loops: every key the scan hits is removed while the map is ranged over. */
  method RemoveHits(m: map<string, string>, slug: string) returns (r: map<string, string>)
    ensures r == Unhit(m, slug)
  {
    r := m;
    var left := m.Keys;
    while left != {}
      invariant left <= m.Keys
      invariant r == map k | k in m && (k in left || !ScanHits(k, slug)) :: m[k]
    {
      var k :| k in left;
      if ScanHits(k, slug) {
        r := r - {k};
      }
      left := left - {k};
    }
  }

  /** Every document is stored under its key, and every key is some document's. */
  ghost predicate DocsStored(docs: map<Blob, string>, blobs: map<string, string>) {
    && (forall d :: d in docs ==> GoodDoc(d) && DocKey(d) in blobs && blobs[DocKey(d)] == docs[d])
    && (forall k :: k in blobs ==> exists d :: d in docs && GoodDoc(d) && DocKey(d) == k)
  }

  ghost predicate AssetsStored(held: map<Asset, string>, assets: map<string, string>) {
    && (forall a :: a in held ==> NulFree(a.slug) && AssetKey(a) in assets && assets[AssetKey(a)] == held[a])
    && (forall k :: k in assets ==> exists a :: a in held && AssetKey(a) == k)
  }

  lemma DocScan(docs: map<Blob, string>, d: Blob, slug: string)
    requires GoodDoc(d) && NulFree(slug)
    ensures ScanHits(DocKey(d), slug) <==> d.slug == slug
    ensures d.slug == slug ==> DocKey(d)[|Prefix(slug)|..] == Suffix(d)
  {
    ScanExact(slug, d.slug, Suffix(d));
    SuffixNonEmpty(d);
  }

  lemma DocsLeft(docs: map<Blob, string>, blobs: map<string, string>, slug: string)
    requires DocsStored(docs, blobs) && NulFree(slug)
    ensures DocsStored(OtherDocs(docs, slug), Unhit(blobs, slug))
  {
    forall d | d in docs ensures ScanHits(DocKey(d), slug) <==> d.slug == slug {
      DocScan(docs, d, slug);
    }
  }

  lemma AssetsLeft(held: map<Asset, string>, assets: map<string, string>, slug: string)
    requires AssetsStored(held, assets) && NulFree(slug)
    ensures AssetsStored(OtherAssets(held, slug), Unhit(assets, slug))
  {
    forall a | a in held ensures ScanHits(AssetKey(a), slug) <==> a.slug == slug && a.sha != "" {
      ScanExact(slug, a.slug, a.sha);
    }
  }

  lemma DocAdded(docs: map<Blob, string>, blobs: map<string, string>, d: Blob, html: string)
    requires DocsStored(docs, blobs) && GoodDoc(d)
    ensures DocsStored(docs[d := html], blobs[DocKey(d) := html])
  {
    forall e | e in docs && DocKey(e) == DocKey(d) ensures e == d {
      DocKeyInjective(e, d);
    }
  }

  lemma DocRemoved(docs: map<Blob, string>, blobs: map<string, string>, d: Blob)
    requires DocsStored(docs, blobs) && GoodDoc(d)
    ensures DocsStored(docs - {d}, blobs - {DocKey(d)})
  {
    forall e | e in docs && DocKey(e) == DocKey(d) ensures e == d {
      DocKeyInjective(e, d);
    }
  }

  lemma DocFound(docs: map<Blob, string>, blobs: map<string, string>, d: Blob)
    requires DocsStored(docs, blobs) && GoodDoc(d)
    ensures DocKey(d) in blobs <==> d in docs
  {
    forall e | e in docs && DocKey(e) == DocKey(d) ensures e == d {
      DocKeyInjective(e, d);
    }
  }

  lemma AssetAdded(held: map<Asset, string>, assets: map<string, string>, a: Asset, data: string)
    requires AssetsStored(held, assets) && NulFree(a.slug)
    ensures AssetsStored(held[a := data], assets[AssetKey(a) := data])
  {
    forall b | b in held && AssetKey(b) == AssetKey(a) ensures b == a {
      AssetKeyInjective(b, a);
    }
  }

  lemma AssetRemoved(held: map<Asset, string>, assets: map<string, string>, a: Asset)
    requires AssetsStored(held, assets) && NulFree(a.slug)
    ensures AssetsStored(held - {a}, assets - {AssetKey(a)})
  {
    forall b | b in held && AssetKey(b) == AssetKey(a) ensures b == a {
      AssetKeyInjective(b, a);
    }
  }

  lemma AssetFound(held: map<Asset, string>, assets: map<string, string>, a: Asset)
    requires AssetsStored(held, assets) && NulFree(a.slug)
    ensures AssetKey(a) in assets <==> a in held
  {
    forall b | b in held && AssetKey(b) == AssetKey(a) ensures b == a {
      AssetKeyInjective(b, a);
    }
  }

  /** Every asset row is stored under its key, and every key is some row's. */
  ghost predicate RowsStored(rows: map<Asset, Meta>, assetMeta: map<string, Meta>) {
    && (forall a :: a in rows ==> NulFree(a.slug) && rows[a].slug == a.slug && rows[a].sha == a.sha)
    && (forall a :: a in rows ==> AssetKey(a) in assetMeta && assetMeta[AssetKey(a)] == rows[a])
    && (forall k :: k in assetMeta ==> exists a :: a in rows && AssetKey(a) == k)
  }

  lemma RowAdded(rows: map<Asset, Meta>, assetMeta: map<string, Meta>, row: Meta)
    requires RowsStored(rows, assetMeta) && NulFree(row.slug)
    ensures var a := Asset(row.slug, row.sha); RowsStored(rows[a := row], assetMeta[AssetKey(a) := row])
  {
    var a := Asset(row.slug, row.sha);
    forall b | b in rows && AssetKey(b) == AssetKey(a) ensures b == a {
      AssetKeyInjective(b, a);
    }
  }

  lemma RowRemoved(rows: map<Asset, Meta>, assetMeta: map<string, Meta>, a: Asset)
    requires RowsStored(rows, assetMeta) && NulFree(a.slug)
    ensures RowsStored(rows - {a}, assetMeta - {AssetKey(a)})
  {
    forall b | b in rows && AssetKey(b) == AssetKey(a) ensures b == a {
      AssetKeyInjective(b, a);
    }
  }

  lemma RowFound(rows: map<Asset, Meta>, assetMeta: map<string, Meta>, a: Asset)
    requires RowsStored(rows, assetMeta) && NulFree(a.slug)
    ensures AssetKey(a) in assetMeta <==> a in rows
    ensures a in rows ==> assetMeta[AssetKey(a)] == rows[a]
    ensures forall b :: b in rows && AssetKey(b) == AssetKey(a) ==> b == a
  {
    forall b | b in rows && AssetKey(b) == AssetKey(a) ensures b == a {
      AssetKeyInjective(b, a);
    }
  }

  /** A row the listing of a slug returns. */
  predicate ListedRow(rows: map<Asset, Meta>, slug: string, m: Meta) {
    m.sha != "" && Asset(slug, m.sha) in rows && rows[Asset(slug, m.sha)] == m
  }

  /** The order of strings, character by character. */
  predicate Less(s: string, t: string) {
    t != "" && (s == "" || s[0] < t[0] || (s[0] == t[0] && Less(s[1..], t[1..])))
  }

  lemma {:induction false} LessTotal(s: string, t: string)
    ensures s == t || Less(s, t) || Less(t, s)
  {
    if s != "" && t != "" && s[0] == t[0] {
      LessTotal(s[1..], t[1..]);
      assert s == [s[0]] + s[1..] && t == [t[0]] + t[1..];
    }
  }

  lemma {:induction false} LessTransitive(s: string, t: string, u: string)
    requires Less(s, t) && Less(t, u)
    ensures Less(s, u)
  {
    if s != "" && s[0] == t[0] == u[0] {
      LessTransitive(s[1..], t[1..], u[1..]);
    }
  }

  predicate BySha(s: seq<Meta>) {
    forall i, j :: 0 <= i < j < |s| ==> Less(s[i].sha, s[j].sha)
  }

  /** Where a row goes in the list ordered by hash. */
  method InsertBySha(s: seq<Meta>, m: Meta) returns (r: seq<Meta>)
    requires BySha(s) && forall x :: x in s ==> x.sha != m.sha
    ensures BySha(r) && forall x :: x in r <==> x in s || x == m
  {
    hide Less;
    var k := 0;
    while k < |s| && Less(s[k].sha, m.sha)
      invariant 0 <= k <= |s| && forall j :: 0 <= j < k ==> Less(s[j].sha, m.sha)
    {
      k := k + 1;
    }
    if k < |s| {
      assert s[k] in s;
      LessTotal(s[k].sha, m.sha);
    }
    r := s[..k] + [m] + s[k..];
    InsertedBySha(s, m, k, r);
  }

  lemma InsertedBySha(s: seq<Meta>, m: Meta, k: int, r: seq<Meta>)
    requires BySha(s) && 0 <= k <= |s| && r == s[..k] + [m] + s[k..]
    requires (forall j :: 0 <= j < k ==> Less(s[j].sha, m.sha)) && (k < |s| ==> Less(m.sha, s[k].sha))
    ensures BySha(r) && forall x :: x in r <==> x in s || x == m
  {
    hide Less;
    forall j | k <= j < |s| ensures Less(m.sha, s[j].sha) {
      if j > k { LessTransitive(m.sha, s[k].sha, s[j].sha); }
    }
    assert s == s[..k] + s[k..];
  }

  class Store {
    var blobs: map<string, string>
    var assets: map<string, string>

    /** The maps the string keys stand for. */
    ghost var docs: map<Blob, string>
    ghost var held: map<Asset, string>
    ghost var rows: map<Asset, Meta>

    var assetMeta: map<string, Meta>

    ghost predicate Valid()
      reads this
    {
      DocsStored(docs, blobs) && AssetsStored(held, assets) && RowsStored(rows, assetMeta)
    }

    constructor ()
      ensures Valid() && docs == map[] && held == map[] && rows == map[]
    {
      blobs, assets, docs, held, assetMeta, rows := map[], map[], map[], map[], map[], map[];
    }

    /** PutDoc and PutDraft. */
    method Put(d: Blob, html: string) returns (size: int)
      requires Valid() && GoodDoc(d)
      modifies this`blobs, this`docs
      ensures Valid() && docs == old(docs)[d := html] && size == |html|
    {
      DocAdded(docs, blobs, d, html);
      blobs, docs := blobs[DocKey(d) := html], docs[d := html];
      size := |html|;
    }

    /** GetDoc, HeadDoc and GetDraft. */
    method Get(d: Blob) returns (html: Option<string>)
      requires Valid() && GoodDoc(d)
      ensures html == if d in docs then Some(docs[d]) else None
    {
      DocFound(docs, blobs, d);
      html := if DocKey(d) in blobs then Some(blobs[DocKey(d)]) else None;
    }

    method DeleteDraft(slug: string)
      requires Valid() && NulFree(slug)
      modifies this`blobs, this`docs
      ensures Valid() && docs == old(docs) - {Draft(slug)}
    {
      DocRemoved(docs, blobs, Draft(slug));
      blobs, docs := blobs - {DocKey(Draft(slug))}, docs - {Draft(slug)};
    }

    /** The stored version numbers of the slug, ascending: no other slug's, and not the draft. */
    method ListVersions(slug: string) returns (out: seq<int>)
      requires Valid() && NulFree(slug)
      ensures Ascending(out)
      ensures forall n :: n in out <==> 0 <= n && Version(slug, n) in docs
    {
      out := [];
      var left := blobs.Keys;
      while left != {}
        invariant left <= blobs.Keys && Ascending(out)
        invariant forall n :: n in out <==> 0 <= n && Version(slug, n) in docs && DocKey(Version(slug, n)) !in left
      {
        var k :| k in left;
        ghost var d :| d in docs && GoodDoc(d) && DocKey(d) == k;
        DocScan(docs, d, slug);
        SuffixNonEmpty(d);
        OnlyDocOfKey(docs, blobs, d);
        if ScanHits(k, slug) {
          var n, ok := Atoi(k[|Prefix(slug)|..]);
          if ok {
            assert d == Version(slug, n);
            out := InsertAscending(out, n);
          }
        }
        left := left - {k};
      }
    }

    /** Everything of the slug goes, nothing of any other. */
    method DeleteDoc(slug: string)
      requires Valid() && NulFree(slug)
      modifies this`blobs, this`docs, this`assets, this`held
      ensures Valid() && docs == OtherDocs(old(docs), slug) && held == OtherAssets(old(held), slug)
    {
      DocsLeft(docs, blobs, slug);
      AssetsLeft(held, assets, slug);
      blobs := RemoveHits(blobs, slug);
      assets := RemoveHits(assets, slug);
      docs, held := OtherDocs(docs, slug), OtherAssets(held, slug);
    }

    method PutAsset(a: Asset, data: string)
      requires Valid() && NulFree(a.slug)
      modifies this`assets, this`held
      ensures Valid() && held == old(held)[a := data]
    {
      AssetAdded(held, assets, a, data);
      assets, held := assets[AssetKey(a) := data], held[a := data];
    }

    method GetAsset(a: Asset) returns (data: Option<string>)
      requires Valid() && NulFree(a.slug)
      ensures data == if a in held then Some(held[a]) else None
    {
      AssetFound(held, assets, a);
      data := if AssetKey(a) in assets then Some(assets[AssetKey(a)]) else None;
    }

    method DeleteAsset(a: Asset)
      requires Valid() && NulFree(a.slug)
      modifies this`assets, this`held
      ensures Valid() && held == old(held) - {a}
    {
      AssetRemoved(held, assets, a);
      assets, held := assets - {AssetKey(a)}, held - {a};
    }

    /** Registering an asset again refreshes its row, which keeps the first creation stamp; no other row changes. */
    method PutAssetMeta(meta: Meta)
      requires Valid() && NulFree(meta.slug)
      modifies this`assetMeta, this`rows
      ensures Valid()
      ensures var a := Asset(meta.slug, meta.sha);
        && a in rows && rows[a] == meta.(created := if a in old(rows) then old(rows)[a].created else meta.created)
        && rows - {a} == old(rows) - {a}
    {
      hide DocsStored, AssetsStored, RowsStored, AssetKey;
      ghost var a := Asset(meta.slug, meta.sha);
      RowFound(rows, assetMeta, a);
      var key := AssetKey(Asset(meta.slug, meta.sha));
      var row := meta;
      if key in assetMeta {
        row := row.(created := assetMeta[key].created);
      }
      RowAdded(rows, assetMeta, row);
      assetMeta, rows := assetMeta[key := row], rows[a := row];
    }

    method GetAssetMeta(a: Asset) returns (meta: Option<Meta>)
      requires Valid() && NulFree(a.slug)
      ensures meta == if a in rows then Some(rows[a]) else None
    {
      RowFound(rows, assetMeta, a);
      meta := if AssetKey(a) in assetMeta then Some(assetMeta[AssetKey(a)]) else None;
    }

    method DeleteAssetMeta(a: Asset)
      requires Valid() && NulFree(a.slug)
      modifies this`assetMeta, this`rows
      ensures Valid() && rows == old(rows) - {a}
    {
      RowRemoved(rows, assetMeta, a);
      assetMeta, rows := assetMeta - {AssetKey(a)}, rows - {a};
    }

    /** The scan of the registry finds exactly the slug's rows with a hash, ordered by hash, each once. */
    method ListAssetMeta(slug: string) returns (out: seq<Meta>)
      requires Valid() && NulFree(slug)
      ensures BySha(out) && forall m :: m in out <==> ListedRow(rows, slug, m)
    {
      hide Less, ScanHits;
      out := [];
      var left := assetMeta.Keys;
      while left != {}
        invariant left <= assetMeta.Keys && BySha(out)
        invariant forall m :: m in out <==> ListedRow(rows, slug, m) && AssetKey(Asset(slug, m.sha)) !in left
      {
        var k :| k in left;
        ghost var a :| a in rows && AssetKey(a) == k;
        RowFound(rows, assetMeta, a);
        ScanExact(slug, a.slug, a.sha);
        if ScanHits(k, slug) {
          assert ListedRow(rows, slug, assetMeta[k]);
          out := InsertBySha(out, assetMeta[k]);
        }
        left := left - {k};
      }
    }
  }

  lemma OnlyDocOfKey(docs: map<Blob, string>, blobs: map<string, string>, d: Blob)
    requires DocsStored(docs, blobs) && d in docs && GoodDoc(d)
    ensures forall e :: e in docs && DocKey(e) == DocKey(d) ==> e == d
  {
    forall e | e in docs && DocKey(e) == DocKey(d) ensures e == d {
      DocKeyInjective(e, d);
    }
  }
}
