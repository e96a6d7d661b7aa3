/**
 SEO helpers: merging metadata over the site defaults, turning a title into
 a URL slug, and shortening a description for social cards.

 Slugs are modelled over ASCII: lower-casing changes only `A`-`Z`, and the
 regex class `\s` is the whitespace table of `Common`.
 */
module Seo {
  import opened Common

  // ---------------------------------------------------------------------------
  // Metadata with defaults
  // ---------------------------------------------------------------------------

  /** Page metadata; `pageType` is the Open Graph `type` field. */
  datatype SEOData = SEOData(
    title: string,
    description: string,
    siteName: string,
    pageType: string,
    locale: string,
    twitterCard: string,
    keywords: string,
    imageAlt: string,
    image: Option<string>,
    publishedTime: Option<string>)

  /** `Partial<SEOData>`: each field may be left out. */
  datatype PartialSEOData = PartialSEOData(
    title: Option<string>,
    description: Option<string>,
    siteName: Option<string>,
    pageType: Option<string>,
    locale: Option<string>,
    twitterCard: Option<string>,
    keywords: Option<string>,
    imageAlt: Option<string>,
    image: Option<string>,
    publishedTime: Option<string>)

  const NoOverrides := PartialSEOData(None, None, None, None, None, None, None, None, None, None)

  const DefaultSEO := SEOData(
    "draught", "Description", "draught", "website", "en_US",
    "summary_large_image", "draught", "draught", None, None)

  /** Every field of `d`, given explicitly. */
  function AsPartial(d: SEOData): (p: PartialSEOData)
    ensures p.title.Some? && p.description.Some? && p.siteName.Some? && p.pageType.Some?
    ensures p.locale.Some? && p.twitterCard.Some? && p.keywords.Some? && p.imageAlt.Some?
  {
    PartialSEOData(Some(d.title), Some(d.description), Some(d.siteName), Some(d.pageType),
      Some(d.locale), Some(d.twitterCard), Some(d.keywords), Some(d.imageAlt), d.image, d.publishedTime)
  }

  /** `{ ...defaultSEO, ...seoData }` */
  function CreateSEOData(p: PartialSEOData): (r: SEOData)
    ensures p.title.Some? ==> r.title == p.title.value
    ensures p.title.None? ==> r.title == DefaultSEO.title
    ensures p.description.Some? ==> r.description == p.description.value
    ensures p.description.None? ==> r.description == DefaultSEO.description
    ensures p.siteName.Some? ==> r.siteName == p.siteName.value
    ensures p.siteName.None? ==> r.siteName == DefaultSEO.siteName
    ensures p.pageType.Some? ==> r.pageType == p.pageType.value
    ensures p.pageType.None? ==> r.pageType == DefaultSEO.pageType
    ensures p.locale.Some? ==> r.locale == p.locale.value
    ensures p.locale.None? ==> r.locale == DefaultSEO.locale
    ensures p.twitterCard.Some? ==> r.twitterCard == p.twitterCard.value
    ensures p.twitterCard.None? ==> r.twitterCard == DefaultSEO.twitterCard
    ensures p.keywords.Some? ==> r.keywords == p.keywords.value
    ensures p.keywords.None? ==> r.keywords == DefaultSEO.keywords
    ensures p.imageAlt.Some? ==> r.imageAlt == p.imageAlt.value
    ensures p.imageAlt.None? ==> r.imageAlt == DefaultSEO.imageAlt
    ensures r.image == p.image && r.publishedTime == p.publishedTime
  {
    SEOData(
      p.title.GetOr(DefaultSEO.title),
      p.description.GetOr(DefaultSEO.description),
      p.siteName.GetOr(DefaultSEO.siteName),
      p.pageType.GetOr(DefaultSEO.pageType),
      p.locale.GetOr(DefaultSEO.locale),
      p.twitterCard.GetOr(DefaultSEO.twitterCard),
      p.keywords.GetOr(DefaultSEO.keywords),
      p.imageAlt.GetOr(DefaultSEO.imageAlt),
      p.image,
      p.publishedTime)
  }

  /** With nothing given, the defaults come back; with everything given, the argument comes back. */
  lemma CreateSEODataExtremes(d: SEOData)
    ensures CreateSEOData(NoOverrides) == DefaultSEO
    ensures CreateSEOData(AsPartial(d)) == d
  {
  }

  /** Merging the merged result again changes nothing. */
  lemma CreateSEODataIdempotent(p: PartialSEOData)
    ensures CreateSEOData(AsPartial(CreateSEOData(p))) == CreateSEOData(p)
  {
  }

  // ---------------------------------------------------------------------------
  // Slugs
  // ---------------------------------------------------------------------------

  predicate IsUpper(c: char) {
    'A' <= c <= 'Z'
  }

  /** The regex class `\w`: ASCII letters, digits and `_`. */
  predicate IsWordChar(c: char) {
    'a' <= c <= 'z' || IsUpper(c) || '0' <= c <= '9' || c == '_'
  }

  /** The characters a slug is made of. */
  predicate IsSlugChar(c: char) {
    'a' <= c <= 'z' || '0' <= c <= '9' || c == '_' || c == '-'
  }

  predicate AllSlugChars(s: string) {
    forall i :: 0 <= i < |s| ==> IsSlugChar(s[i])
  }

  predicate NoDoubleHyphen(s: string) {
    forall i :: 0 <= i < |s| - 1 ==> !(s[i] == '-' && s[i + 1] == '-')
  }

  /** What `createSlug` promises of its output. */
  predicate IsSlug(s: string) {
    && AllSlugChars(s)
    && NoDoubleHyphen(s)
    && (s == [] || (s[0] != '-' && s[|s| - 1] != '-'))
  }

  /** `toLowerCase` on ASCII. */
  function LowerAscii(s: string): (r: string)
    ensures |r| == |s|
    ensures forall i :: 0 <= i < |s| ==> r[i] == (if IsUpper(s[i]) then (s[i] as int + 32) as char else s[i])
    ensures forall i :: 0 <= i < |r| ==> !IsUpper(r[i])
  {
    if s == [] then []
    else [if IsUpper(s[0]) then (s[0] as int + 32) as char else s[0]] + LowerAscii(s[1..])
  }

  /** The characters `[\w\s-]` that survive special-character removal. */
  predicate Kept(c: char) {
    IsWordChar(c) || IsWhitespace(c) || c == '-'
  }

  /** `.replace(/[^\w\s-]/g, '')` */
  function RemoveSpecial(s: string): (r: string)
    ensures forall i :: 0 <= i < |r| ==> Kept(r[i])
    ensures (forall i :: 0 <= i < |s| ==> !IsUpper(s[i])) ==> forall i :: 0 <= i < |r| ==> !IsUpper(r[i])
    ensures |r| <= |s|
    ensures |s| == 1 ==> (Kept(s[0]) <==> r == s) && (!Kept(s[0]) <==> r == [])
  {
    if s == [] then []
    else
      var rest := RemoveSpecial(s[1..]);
      if Kept(s[0]) then [s[0]] + rest else rest
  }

  /** Removal works character by character: it distributes over concatenation. */
  lemma {:induction false} RemoveSpecialAppend(a: string, b: string)
    ensures RemoveSpecial(a + b) == RemoveSpecial(a) + RemoveSpecial(b)
    decreases |a|
  {
    if a == [] {
      assert a + b == b;
    } else {
      assert (a + b)[0] == a[0];
      assert (a + b)[1..] == a[1..] + b;
      RemoveSpecialAppend(a[1..], b);
    }
  }

  /** Only special characters are removed: a string without any is unchanged. */
  lemma {:induction false} RemoveSpecialKeeps(s: string)
    requires forall i :: 0 <= i < |s| ==> Kept(s[i])
    ensures RemoveSpecial(s) == s
    decreases |s|
  {
    if s != [] {
      RemoveSpecialKeeps(s[1..]);
    }
  }

  /** The two run classes the slug pipeline collapses. */
  datatype RunClass = WhitespaceRun | HyphenRun

  predicate InClass(cls: RunClass, c: char) {
    match cls
    case WhitespaceRun => IsWhitespace(c)
    case HyphenRun => c == '-'
  }

  /** Drops the leading run of the class. */
  function DropRun(s: string, cls: RunClass): (r: string)
    ensures |r| <= |s|
    ensures s != [] && InClass(cls, s[0]) ==> |r| < |s|
    ensures r == [] || !InClass(cls, r[0])
  {
    if s != [] && InClass(cls, s[0]) then DropRun(s[1..], cls) else s
  }

  /** What is left after dropping a run is a suffix of the input. */
  lemma {:induction false} DropRunSuffix(s: string, cls: RunClass)
    ensures DropRun(s, cls) == s[|s| - |DropRun(s, cls)|..]
    decreases |s|
  {
    if s != [] && InClass(cls, s[0]) {
      DropRunSuffix(s[1..], cls);
    }
  }

  /** A string in which each run of the class is already a single `-`. */
  predicate RunsCollapsed(s: string, cls: RunClass) {
    forall i :: 0 <= i < |s| && InClass(cls, s[i]) ==> s[i] == '-' && (i + 1 == |s| || !InClass(cls, s[i + 1]))
  }

  /** `.replace(/\s+/g, '-')` or `.replace(/-+/g, '-')`: each maximal run of the class becomes one `-`. */
  function ReplaceRuns(s: string, cls: RunClass): (r: string)
    ensures |r| == 0 <==> |s| == 0
    ensures s != [] ==> r[0] == (if InClass(cls, s[0]) then '-' else s[0])
    decreases |s|
  {
    if s == [] then []
    else if InClass(cls, s[0]) then ['-'] + ReplaceRuns(DropRun(s, cls), cls)
    else [s[0]] + ReplaceRuns(s[1..], cls)
  }

  /** One step of `ReplaceRuns` at a character outside the class. */
  lemma ReplaceRunsAtOther(s: string, cls: RunClass)
    requires s != [] && !InClass(cls, s[0])
    ensures ReplaceRuns(s, cls) == [s[0]] + ReplaceRuns(s[1..], cls)
  {
  }

  /** One step of `ReplaceRuns` at the start of a run. */
  lemma ReplaceRunsAtRun(s: string, cls: RunClass)
    requires s != [] && InClass(cls, s[0])
    ensures ReplaceRuns(s, cls) == ['-'] + ReplaceRuns(DropRun(s, cls), cls)
  {
  }

  /** Replacing runs keeps only slug characters when the input has nothing else outside the class. */
  lemma {:induction false} ReplaceRunsSlugChars(s: string, cls: RunClass)
    requires forall i :: 0 <= i < |s| ==> IsSlugChar(s[i]) || InClass(cls, s[i])
    ensures AllSlugChars(ReplaceRuns(s, cls))
    decreases |s|
  {
    if s != [] {
      if InClass(cls, s[0]) {
        var d := DropRun(s, cls);
        DropRunSuffix(s, cls);
        assert forall i :: 0 <= i < |d| ==> d[i] == s[|s| - |d| + i];
        ReplaceRunsSlugChars(d, cls);
      } else {
        assert forall i :: 0 <= i < |s[1..]| ==> s[1..][i] == s[i + 1];
        ReplaceRunsSlugChars(s[1..], cls);
      }
    }
  }

  /** After collapsing hyphen runs no two hyphens are adjacent. */
  lemma {:induction false} CollapsedHasNoDoubleHyphen(s: string)
    ensures NoDoubleHyphen(ReplaceRuns(s, HyphenRun))
    decreases |s|
  {
    if s != [] {
      if s[0] == '-' {
        var rest := DropRun(s, HyphenRun);
        CollapsedHasNoDoubleHyphen(rest);
        assert rest == [] || rest[0] != '-';
      } else {
        CollapsedHasNoDoubleHyphen(s[1..]);
      }
    }
  }

  /** Replacing runs of a class never introduces its members, except the `-` itself. */
  lemma {:induction false} ReplaceRunsRemovesClass(s: string, cls: RunClass)
    ensures forall i :: 0 <= i < |ReplaceRuns(s, cls)| ==>
      ReplaceRuns(s, cls)[i] == '-' || !InClass(cls, ReplaceRuns(s, cls)[i])
    decreases |s|
  {
    if s != [] {
      if InClass(cls, s[0]) {
        ReplaceRunsRemovesClass(DropRun(s, cls), cls);
      } else {
        ReplaceRunsRemovesClass(s[1..], cls);
      }
    }
  }

  /** Runs that are already single dashes are left as they are. */
  lemma {:induction false} ReplaceRunsIdentity(s: string, cls: RunClass)
    requires RunsCollapsed(s, cls)
    ensures ReplaceRuns(s, cls) == s
    decreases |s|
  {
    if s != [] {
      CollapsedTail(s, cls);
      ReplaceRunsIdentity(s[1..], cls);
      if InClass(cls, s[0]) {
        ReplaceRunsAtRun(s, cls);
        SingleRunDrops(s, cls);
      } else {
        ReplaceRunsAtOther(s, cls);
      }
      ConsTail(s);
    }
  }

  /** The tail of a collapsed string is collapsed. */
  lemma CollapsedTail(s: string, cls: RunClass)
    requires s != [] && RunsCollapsed(s, cls)
    ensures RunsCollapsed(s[1..], cls)
  {
    forall i | 0 <= i < |s[1..]| && InClass(cls, s[1..][i])
      ensures s[1..][i] == '-' && (i + 1 == |s[1..]| || !InClass(cls, s[1..][i + 1]))
    {
      assert s[1..][i] == s[i + 1];
    }
  }

  /** In a collapsed string a run is a single `-`, so dropping it drops one character. */
  lemma SingleRunDrops(s: string, cls: RunClass)
    requires s != [] && InClass(cls, s[0]) && RunsCollapsed(s, cls)
    ensures s[0] == '-' && DropRun(s, cls) == s[1..]
  {
    assert |s| == 1 || !InClass(cls, s[1]);
    assert DropRun(s, cls) == DropRun(s[1..], cls);
  }

  lemma ConsTail(s: string)
    requires s != []
    ensures [s[0]] + s[1..] == s
  {
  }

  /** True when `s` is all `-`. */
  predicate AllHyphens(s: string) {
    forall i :: 0 <= i < |s| ==> s[i] == '-'
  }

  /** How many `-` `s` starts with. */
  function LeadingHyphens(s: string): (n: nat)
    ensures n <= |s|
    ensures forall i :: 0 <= i < n ==> s[i] == '-'
    ensures n < |s| ==> s[n] != '-'
    decreases |s|
  {
    if |s| > 0 && s[0] == '-' then
      var m := LeadingHyphens(s[1..]);
      assert forall i :: 1 <= i < m + 1 ==> s[i] == s[1..][i - 1];
      m + 1
    else 0
  }

  /** Where the run of `-` that ends `s` begins. */
  function TrailingHyphens(s: string): (n: nat)
    ensures n <= |s|
    ensures forall i :: n <= i < |s| ==> s[i] == '-'
    ensures n > 0 ==> s[n - 1] != '-'
    decreases |s|
  {
    if |s| > 0 && s[|s| - 1] == '-' then
      var m := TrailingHyphens(s[..|s| - 1]);
      assert forall i :: m <= i < |s| - 1 ==> s[i] == s[..|s| - 1][i];
      m
    else |s|
  }

  /** `.replace(/^-+/, '')`: drops the leading run of `-`. */
  function DropLeadingHyphens(s: string): (r: string)
    ensures |r| <= |s| && r == s[|s| - |r|..] && AllHyphens(s[..|s| - |r|])
    ensures r == [] || r[0] != '-'
    ensures s == [] || s[0] != '-' ==> r == s
    ensures AllSlugChars(s) ==> AllSlugChars(r)
    ensures NoDoubleHyphen(s) ==> NoDoubleHyphen(r)
  {
    var n := LeadingHyphens(s);
    assert forall i :: 0 <= i < n ==> s[..n][i] == s[i];
    assert forall i :: 0 <= i < |s| - n ==> s[n..][i] == s[n + i];
    s[n..]
  }

  /** `.replace(/-+$/, '')`: drops the trailing run of `-`. */
  function DropTrailingHyphens(s: string): (r: string)
    ensures |r| <= |s| && r == s[..|r|] && AllHyphens(s[|r|..])
    ensures r == [] || r[|r| - 1] != '-'
    ensures s == [] || s[|s| - 1] != '-' ==> r == s
    ensures s != [] && s[0] != '-' ==> r == [] || r[0] == s[0]
    ensures AllSlugChars(s) ==> AllSlugChars(r)
    ensures NoDoubleHyphen(s) ==> NoDoubleHyphen(r)
  {
    var n := TrailingHyphens(s);
    assert forall i :: 0 <= i < |s| - n ==> s[n..][i] == s[n + i];
    s[..n]
  }

  /** `t` occurs in `s` at offset `i`, with only `-` before and after it. */
  predicate HyphenFramed(s: string, t: string, i: nat) {
    i + |t| <= |s| && s[i..i + |t|] == t && AllHyphens(s[..i]) && AllHyphens(s[i + |t|..])
  }

  /** `.replace(/^-+|-+$/g, '')`: the input is `-`s, then the result, then `-`s. */
  function StripHyphens(s: string): (r: string)
    ensures exists i :: HyphenFramed(s, r, i)
    ensures AllSlugChars(s) ==> AllSlugChars(r)
    ensures NoDoubleHyphen(s) ==> NoDoubleHyphen(r)
    ensures r == [] || (r[0] != '-' && r[|r| - 1] != '-')
    ensures s == [] || (s[0] != '-' && s[|s| - 1] != '-') ==> r == s
  {
    var t := DropLeadingHyphens(s);
    var r := DropTrailingHyphens(t);
    HyphenFrame(s, |s| - |t|, t, r);
    r
  }

  /** A `-`-followed prefix of a `-`-preceded suffix of `s` is framed by `-` in `s`. */
  lemma HyphenFrame(s: string, i: nat, t: string, r: string)
    requires i <= |s| && t == s[i..] && AllHyphens(s[..i])
    requires |r| <= |t| && r == t[..|r|] && AllHyphens(t[|r|..])
    ensures HyphenFramed(s, r, i)
  {
    PrefixOfSuffix(s, i, |r|);
  }

  /** A string without whitespace is its own trim. */
  lemma TrimWithoutWhitespace(s: string)
    requires forall i :: 0 <= i < |s| ==> !IsWhitespace(s[i])
    ensures Trim(s) == s
  {
    TrimFixpoint(s);
  }

  /** After the replacements only slug characters remain, without `--` and without whitespace to trim. */
  lemma CollapsedTitleFacts(title: string)
    ensures var collapsed := ReplaceRuns(ReplaceRuns(RemoveSpecial(LowerAscii(title)), WhitespaceRun), HyphenRun);
            AllSlugChars(collapsed) && NoDoubleHyphen(collapsed) && Trim(collapsed) == collapsed
  {
    var kept := RemoveSpecial(LowerAscii(title));
    var dashed := ReplaceRuns(kept, WhitespaceRun);
    var collapsed := ReplaceRuns(dashed, HyphenRun);
    ReplaceRunsSlugChars(kept, WhitespaceRun);
    ReplaceRunsSlugChars(dashed, HyphenRun);
    CollapsedHasNoDoubleHyphen(dashed);
    assert forall i :: 0 <= i < |collapsed| ==> !IsWhitespace(collapsed[i]);
    TrimWithoutWhitespace(collapsed);
  }

  /** `createSlug`: lower-case, drop special characters, dash whitespace runs, collapse dashes, trim, strip edge dashes. */
  function CreateSlug(title: string): (r: string)
    ensures IsSlug(r)
  {
    var kept := RemoveSpecial(LowerAscii(title));
    var dashed := ReplaceRuns(kept, WhitespaceRun);
    var collapsed := ReplaceRuns(dashed, HyphenRun);
    CollapsedTitleFacts(title);
    StripHyphens(Trim(collapsed))
  }

  /** A slug is left as it is. */
  lemma SlugFixpoint(s: string)
    requires IsSlug(s)
    ensures CreateSlug(s) == s
  {
    assert LowerAscii(s) == s;
    RemoveSpecialKeeps(s);
    SlugHasNoWhitespace(s);
    ReplaceRunsIdentity(s, WhitespaceRun);
    SlugSurvivesCollapse(s);
  }

  lemma LowerAsciiIdempotent(s: string)
    ensures LowerAscii(LowerAscii(s)) == LowerAscii(s)
  {
  }

  /** Only the lower-cased title matters: titles differing only in ASCII case share a slug. */
  lemma CreateSlugLowers(title: string)
    ensures CreateSlug(LowerAscii(title)) == CreateSlug(title)
  {
    LowerAsciiIdempotent(title);
  }

  /** `createSlug(createSlug(s)) == createSlug(s)` */
  lemma CreateSlugIdempotent(s: string)
    ensures CreateSlug(CreateSlug(s)) == CreateSlug(s)
  {
    SlugFixpoint(CreateSlug(s));
  }

  /** A whitespace run directly followed by a non-member is dropped as a whole. */
  lemma {:induction false} DropRunPrefix(w: string, b: string, cls: RunClass)
    requires forall i :: 0 <= i < |w| ==> InClass(cls, w[i])
    requires b == [] || !InClass(cls, b[0])
    ensures DropRun(w + b, cls) == b
    decreases |w|
  {
    if w != [] {
      assert (w + b)[1..] == w[1..] + b;
      DropRunPrefix(w[1..], b, cls);
    } else {
      assert w + b == b;
    }
  }

  /** A run that stops inside `a` is dropped the same way with anything appended. */
  lemma {:induction false} DropRunAppend(a: string, rest: string, cls: RunClass)
    requires a != [] && !InClass(cls, a[|a| - 1])
    ensures DropRun(a + rest, cls) == DropRun(a, cls) + rest
    decreases |a|
  {
    assert (a + rest)[0] == a[0];
    if InClass(cls, a[0]) {
      assert |a| >= 2;
      assert (a + rest)[1..] == a[1..] + rest;
      assert a[1..][|a[1..]| - 1] == a[|a| - 1];
      DropRunAppend(a[1..], rest, cls);
    }
  }

  /**
   Each maximal whitespace run becomes exactly one `-`: splitting the input
   at a run splits the output at a single dash.
   */
  lemma {:induction false} RunBecomesOneDash(a: string, w: string, b: string, cls: RunClass)
    requires w != [] && forall i :: 0 <= i < |w| ==> InClass(cls, w[i])
    requires a == [] || !InClass(cls, a[|a| - 1])
    requires b == [] || !InClass(cls, b[0])
    ensures ReplaceRuns(a + w + b, cls) == ReplaceRuns(a, cls) + ['-'] + ReplaceRuns(b, cls)
    decreases |a|
  {
    if a == [] {
      assert a + w + b == w + b;
      assert ReplaceRuns(a, cls) + ['-'] + ReplaceRuns(b, cls) == ['-'] + ReplaceRuns(b, cls);
      OneDashAtStart(w, b, cls);
    } else if InClass(cls, a[0]) {
      DropRunStopsInside(a, cls);
      var d := DropRun(a, cls);
      DropRunSuffix(a, cls);
      assert d[|d| - 1] == a[|a| - 1];
      RunBecomesOneDash(d, w, b, cls);
      OneDashAfterRun(a, w, b, cls);
    } else {
      if a[1..] != [] {
        assert a[1..][|a[1..]| - 1] == a[|a| - 1];
      }
      RunBecomesOneDash(a[1..], w, b, cls);
      OneDashAfterChar(a, w, b, cls);
    }
  }

  /** Base case: the input starts with the run. */
  lemma OneDashAtStart(w: string, b: string, cls: RunClass)
    requires w != [] && forall i :: 0 <= i < |w| ==> InClass(cls, w[i])
    requires b == [] || !InClass(cls, b[0])
    ensures ReplaceRuns(w + b, cls) == ['-'] + ReplaceRuns(b, cls)
  {
    assert (w + b)[0] == w[0];
    ReplaceRunsAtRun(w + b, cls);
    DropRunPrefix(w, b, cls);
  }

  /** Step: `a` starts with a run of its own, which ends inside `a`. */
  lemma OneDashAfterRun(a: string, w: string, b: string, cls: RunClass)
    requires a != [] && InClass(cls, a[0]) && !InClass(cls, a[|a| - 1])
    requires ReplaceRuns(DropRun(a, cls) + w + b, cls)
             == ReplaceRuns(DropRun(a, cls), cls) + ['-'] + ReplaceRuns(b, cls)
    ensures ReplaceRuns(a + w + b, cls) == ReplaceRuns(a, cls) + ['-'] + ReplaceRuns(b, cls)
  {
    AppendAssoc(a, w, b);
    ReplaceRunsAtRun(a + (w + b), cls);
    ReplaceRunsAtRun(a, cls);
    DropRunAppend(a, w + b, cls);
    AppendAssoc(DropRun(a, cls), w, b);
    ConsAssoc('-', ReplaceRuns(DropRun(a, cls), cls), ReplaceRuns(b, cls));
  }

  /** Step: `a` starts with a character outside the class. */
  lemma OneDashAfterChar(a: string, w: string, b: string, cls: RunClass)
    requires a != [] && !InClass(cls, a[0])
    requires ReplaceRuns(a[1..] + w + b, cls) == ReplaceRuns(a[1..], cls) + ['-'] + ReplaceRuns(b, cls)
    ensures ReplaceRuns(a + w + b, cls) == ReplaceRuns(a, cls) + ['-'] + ReplaceRuns(b, cls)
  {
    AppendHead(a, w + b);
    AppendAssoc(a, w, b);
    AppendAssoc(a[1..], w, b);
    ReplaceRunsAtOther(a + w + b, cls);
    ReplaceRunsAtOther(a, cls);
    ConsAssoc(a[0], ReplaceRuns(a[1..], cls), ReplaceRuns(b, cls));
  }

  lemma AppendAssoc(a: string, w: string, b: string)
    ensures a + w + b == a + (w + b)
  {
  }

  lemma AppendHead(a: string, b: string)
    requires a != []
    ensures (a + b)[0] == a[0] && (a + b)[1..] == a[1..] + b
  {
  }

  lemma ConsAssoc(c: char, L: string, R: string)
    ensures [c] + (L + ['-'] + R) == ([c] + L) + ['-'] + R
  {
  }

  /** A run cannot swallow a string whose last character is outside the class. */
  lemma {:induction false} DropRunStopsInside(a: string, cls: RunClass)
    requires a != [] && !InClass(cls, a[|a| - 1])
    ensures DropRun(a, cls) != []
    decreases |a|
  {
    if InClass(cls, a[0]) {
      assert |a| >= 2 && a[1..][|a[1..]| - 1] == a[|a| - 1];
      DropRunStopsInside(a[1..], cls);
    }
  }

  /** Slugs contain no whitespace. */
  lemma SlugHasNoWhitespace(s: string)
    requires AllSlugChars(s)
    ensures forall i :: 0 <= i < |s| ==> !IsWhitespace(s[i]) && !IsUpper(s[i])
  {
  }

  /**
   Two slug words around a whitespace run come out joined by one dash, as
   `createSlug('hello   world')` gives `'hello-world'`.
   */
  lemma WordsJoinedByDash(a: string, w: string, b: string)
    requires a != [] && b != [] && IsSlug(a) && IsSlug(b)
    requires w != [] && AllWhitespace(w)
    ensures CreateSlug(a + w + b) == a + ['-'] + b
  {
    JoinedWordsPass(a, w, b);
    JoinedWordsDashed(a, w, b);
    JoinIsSlug(a, b);
    SlugSurvivesCollapse(a + ['-'] + b);
  }

  /** Lower-casing and removing special characters leave two slug words and whitespace alone. */
  lemma JoinedWordsPass(a: string, w: string, b: string)
    requires IsSlug(a) && IsSlug(b) && AllWhitespace(w)
    ensures RemoveSpecial(LowerAscii(a + w + b)) == a + w + b
  {
    var x := a + w + b;
    SlugHasNoWhitespace(a);
    SlugHasNoWhitespace(b);
    forall i | 0 <= i < |x|
      ensures !IsUpper(x[i]) && (IsSlugChar(x[i]) || IsWhitespace(x[i]))
    {
      if i < |a| {
        assert x[i] == a[i];
      } else if i < |a| + |w| {
        assert x[i] == w[i - |a|];
      } else {
        assert x[i] == b[i - |a| - |w|];
      }
    }
    assert LowerAscii(x) == x;
    RemoveSpecialKeeps(x);
  }

  /** The whitespace run between two slug words becomes one dash. */
  lemma JoinedWordsDashed(a: string, w: string, b: string)
    requires a != [] && b != [] && IsSlug(a) && IsSlug(b)
    requires w != [] && AllWhitespace(w)
    ensures ReplaceRuns(a + w + b, WhitespaceRun) == a + ['-'] + b
  {
    SlugHasNoWhitespace(a);
    SlugHasNoWhitespace(b);
    RunBecomesOneDash(a, w, b, WhitespaceRun);
    ReplaceRunsIdentity(a, WhitespaceRun);
    ReplaceRunsIdentity(b, WhitespaceRun);
  }

  /** The last three stages of the pipeline leave a slug alone. */
  lemma SlugSurvivesCollapse(d: string)
    requires IsSlug(d)
    ensures StripHyphens(Trim(ReplaceRuns(d, HyphenRun))) == d
  {
    SlugHasNoWhitespace(d);
    ReplaceRunsIdentity(d, HyphenRun);
    TrimWithoutWhitespace(d);
  }

  /** Joining two non-empty slugs with one dash gives a slug. */
  lemma JoinIsSlug(a: string, b: string)
    requires a != [] && b != [] && IsSlug(a) && IsSlug(b)
    ensures IsSlug(a + ['-'] + b)
  {
    var d := a + ['-'] + b;
    forall i | 0 <= i < |d| - 1
      ensures !(d[i] == '-' && d[i + 1] == '-')
    {
      if i + 1 < |a| {
        assert d[i] == a[i] && d[i + 1] == a[i + 1];
      } else if i + 1 == |a| {
        assert d[i] == a[|a| - 1];
      } else if i == |a| {
        assert d[i + 1] == b[0];
      } else {
        var j := i - |a| - 1;
        assert d[i] == b[j] && d[i + 1] == b[j + 1];
      }
    }
    forall i | 0 <= i < |d|
      ensures IsSlugChar(d[i])
    {
      if i < |a| {
        assert d[i] == a[i];
      } else if i > |a| {
        assert d[i] == b[i - |a| - 1];
      }
    }
  }

  // ---------------------------------------------------------------------------
  // Descriptions
  // ---------------------------------------------------------------------------

  const DefaultMaxLength: int := 160

  /**
   `truncateDescription`: a description that fits is kept; a longer one is cut
   to `maxLength - 3` characters (none when that is negative), trimmed, and
   given a `...` suffix.
   */
  function TruncateDescription(description: string, maxLength: int): (r: string)
    ensures |description| <= maxLength ==> r == description
    ensures |description| > maxLength ==>
      && |r| >= 3 && r[|r| - 3..] == "..."
      && IsTrimmed(r[..|r| - 3])
      && |r| - 3 <= (if maxLength >= 3 then maxLength - 3 else 0)
    ensures maxLength >= 3 ==> |r| <= maxLength
  {
    if |description| <= maxLength then description
    else
      var head := Trim(description[..CutPoint(maxLength)]);
      EllipsisSplit(head);
      head + "..."
  }

  /** Appending the ellipsis keeps the head as the prefix. */
  lemma EllipsisSplit(head: string)
    ensures |head + "..."| == |head| + 3
    ensures (head + "...")[..|head|] == head
    ensures (head + "...")[|head|..] == "..."
  {
  }

  /** Where a too-long description is cut: `maxLength - 3`, or 0 when that is negative. */
  function CutPoint(maxLength: int): (cut: nat)
    ensures cut <= maxLength || maxLength < 3
  {
    if maxLength - 3 < 0 then 0 else maxLength - 3
  }

  /** `t` occurs in `d` at offset `i`, and only whitespace comes before it. */
  predicate FollowsWhitespace(d: string, t: string, i: nat) {
    i + |t| <= |d| && d[i..i + |t|] == t && AllWhitespace(d[..i])
  }

  /** The kept part of a shortened description is a stretch of the original, only whitespace dropped around it. */
  lemma TruncatedPartOfOriginal(description: string, maxLength: int) returns (i: nat)
    requires |description| > maxLength
    ensures var r := TruncateDescription(description, maxLength);
            FollowsWhitespace(description, r[..|r| - 3], i)
    ensures var r := TruncateDescription(description, maxLength);
            WhitespaceFramed(description[..CutPoint(maxLength)], r[..|r| - 3], i)
  {
    i := HeadFramed(description, CutPoint(maxLength));
    TruncatedHead(description, maxLength);
  }

  /** The trim of a prefix of `d` sits in `d` after a whitespace-only stretch. */
  lemma HeadFramed(d: string, cut: nat) returns (i: nat)
    requires cut <= |d|
    ensures FollowsWhitespace(d, Trim(d[..cut]), i)
    ensures WhitespaceFramed(d[..cut], Trim(d[..cut]), i)
  {
    var head := d[..cut];
    i := TrimIsWhitespaceFrame(head);
    FrameInPrefix(d, cut, Trim(head), i);
  }

  /** A whitespace-framed stretch of a prefix sits at the same place in the whole string. */
  lemma FrameInPrefix(d: string, cut: nat, t: string, i: nat)
    requires cut <= |d| && WhitespaceFramed(d[..cut], t, i)
    ensures FollowsWhitespace(d, t, i)
  {
    PrefixSlice(d, cut, i, |t|);
  }

  lemma TruncatedHead(description: string, maxLength: int)
    requires |description| > maxLength
    ensures var r := TruncateDescription(description, maxLength);
            |r| == |Trim(description[..CutPoint(maxLength)])| + 3
            && r[..|r| - 3] == Trim(description[..CutPoint(maxLength)])
  {
    EllipsisSplit(Trim(description[..CutPoint(maxLength)]));
  }

  lemma PrefixSlice(d: string, cut: nat, i: nat, n: nat)
    requires i + n <= cut <= |d|
    ensures d[..cut][i..i + n] == d[i..i + n]
    ensures d[..cut][..i] == d[..i]
  {
  }

  /** For any limit of at least 3, shortening twice is shortening once. */
  lemma TruncateIdempotent(description: string, maxLength: int)
    requires maxLength >= 3
    ensures TruncateDescription(TruncateDescription(description, maxLength), maxLength)
            == TruncateDescription(description, maxLength)
  {
  }

  /** The default limit of 160 characters. */
  function TruncateDescriptionDefault(description: string): (r: string)
    ensures |r| <= DefaultMaxLength
    ensures |description| <= DefaultMaxLength ==> r == description
  {
    TruncateDescription(description, DefaultMaxLength)
  }
}
