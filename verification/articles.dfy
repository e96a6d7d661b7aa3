/**
 `useArticles`: the sorted, de-duplicated list of trimmed tags across all
 articles of all issues, and a one-cell hover state.
 */
module Articles {
  import opened Common

  /** The parts of the content records the tag list reads; a missing tag list is empty. */
  datatype Article = Article(tags: seq<string>)
  datatype Issue = Issue(articles: seq<Article>)

  /** `tag && tag.trim()`: an empty tag and an all-whitespace tag are both skipped. */
  predicate Keeps(tag: string) {
    Trim(tag) != ""
  }

  /** Every tag of every article of every issue, in document order. */
  function AllTags(issues: seq<Issue>): (r: seq<string>)
    decreases |issues|
  {
    if issues == [] then [] else ArticleTags(issues[0].articles) + AllTags(issues[1..])
  }

  function ArticleTags(articles: seq<Article>): (r: seq<string>)
    decreases |articles|
  {
    if articles == [] then [] else articles[0].tags + ArticleTags(articles[1..])
  }

  lemma {:induction false} ArticleTagsMembership(articles: seq<Article>, t: string)
    ensures t in ArticleTags(articles) <==>
      exists j, k :: 0 <= j < |articles| && 0 <= k < |articles[j].tags| && articles[j].tags[k] == t
    decreases |articles|
  {
    if articles != [] {
      ArticleTagsMembership(articles[1..], t);
      if t in ArticleTags(articles[1..]) {
        var j, k :| 0 <= j < |articles[1..]| && 0 <= k < |articles[1..][j].tags| && articles[1..][j].tags[k] == t;
        assert articles[j + 1].tags[k] == t;
      }
      if exists j, k :: 0 <= j < |articles| && 0 <= k < |articles[j].tags| && articles[j].tags[k] == t {
        var j, k :| 0 <= j < |articles| && 0 <= k < |articles[j].tags| && articles[j].tags[k] == t;
        if j > 0 {
          assert articles[1..][j - 1].tags[k] == t;
        }
      }
    }
  }

  /** A string is in `AllTags` exactly when it is the tag of some article of some issue. */
  lemma {:induction false} AllTagsMembership(issues: seq<Issue>, t: string)
    ensures t in AllTags(issues) <==>
      exists i, j, k :: 0 <= i < |issues| && 0 <= j < |issues[i].articles|
                        && 0 <= k < |issues[i].articles[j].tags| && issues[i].articles[j].tags[k] == t
    decreases |issues|
  {
    if issues != [] {
      AllTagsMembership(issues[1..], t);
      ArticleTagsMembership(issues[0].articles, t);
      if t in AllTags(issues[1..]) {
        var i, j, k :| 0 <= i < |issues[1..]| && 0 <= j < |issues[1..][i].articles|
                       && 0 <= k < |issues[1..][i].articles[j].tags| && issues[1..][i].articles[j].tags[k] == t;
        assert issues[i + 1].articles[j].tags[k] == t;
      }
      if exists i, j, k :: 0 <= i < |issues| && 0 <= j < |issues[i].articles|
                           && 0 <= k < |issues[i].articles[j].tags| && issues[i].articles[j].tags[k] == t {
        var i, j, k :| 0 <= i < |issues| && 0 <= j < |issues[i].articles|
                       && 0 <= k < |issues[i].articles[j].tags| && issues[i].articles[j].tags[k] == t;
        if i > 0 {
          assert issues[1..][i - 1].articles[j].tags[k] == t;
        }
      }
    }
  }

  /** Adds `t` to an ascending, repeat-free list, as `Set.add` followed by `sort` would place it. */
  function Insert(xs: seq<string>, t: string): (r: seq<string>)
    requires StrictlySorted(xs)
    ensures StrictlySorted(r)
    ensures forall y :: y in r <==> y in xs || y == t
    decreases |xs|
  {
    if xs == [] then [t]
    else if t == xs[0] then xs
    else if Less(t, xs[0]) then
      assert forall j :: 0 <= j < |xs| ==> Less(t, xs[j]) by {
        forall j | 0 <= j < |xs|
          ensures Less(t, xs[j])
        {
          if j > 0 {
            LessTransitive(t, xs[0], xs[j]);
          }
        }
      }
      [t] + xs
    else
      LessTotal(t, xs[0]);
      var rest := Insert(xs[1..], t);
      assert forall y :: y in rest ==> Less(xs[0], y);
      [xs[0]] + rest
  }

  /** The trims of the kept tags. */
  function KeptTrims(tags: seq<string>): (r: set<string>)
    decreases |tags|
  {
    if tags == [] then {}
    else (if Keeps(tags[0]) then {Trim(tags[0])} else {}) + KeptTrims(tags[1..])
  }

  lemma {:induction false} KeptTrimsMembership(tags: seq<string>, y: string)
    ensures y in KeptTrims(tags) <==> exists t :: t in tags && Keeps(t) && Trim(t) == y
    decreases |tags|
  {
    if tags != [] {
      KeptTrimsMembership(tags[1..], y);
      if exists t :: t in tags && Keeps(t) && Trim(t) == y {
        var t :| t in tags && Keeps(t) && Trim(t) == y;
        if t != tags[0] {
          assert t in tags[1..];
        }
      }
    }
  }

  /** Inserts the trim of every kept tag. */
  function Collect(tags: seq<string>, acc: seq<string>): (r: seq<string>)
    requires StrictlySorted(acc)
    ensures StrictlySorted(r)
    ensures forall y :: y in r <==> y in acc || y in KeptTrims(tags)
    decreases |tags|
  {
    if tags == [] then acc
    else
      var first := if Keeps(tags[0]) then {Trim(tags[0])} else {};
      var acc' := if Keeps(tags[0]) then Insert(acc, Trim(tags[0])) else acc;
      assert forall y :: y in acc' <==> y in acc || y in first;
      assert KeptTrims(tags) == first + KeptTrims(tags[1..]);
      Collect(tags[1..], acc')
  }

  /**
   `getUniqueTags`: no issues (missing or empty) give no tags; otherwise the
   kept tags, trimmed, without repeats, in ascending order.
   */
  function GetUniqueTags(issues: Option<seq<Issue>>): (r: seq<string>)
    ensures issues.None? || issues.value == [] ==> r == []
    ensures StrictlySorted(r)
    ensures issues.Some? ==> forall y :: y in r <==> y in KeptTrims(AllTags(issues.value))
  {
    if issues.None? || issues.value == [] then [] else Collect(AllTags(issues.value), [])
  }

  /** The result is ascending without repeats, and each element is a trimmed, non-empty string. */
  lemma UniqueTagsWellFormed(issues: Option<seq<Issue>>)
    ensures StrictlySorted(GetUniqueTags(issues))
    ensures NoDup(GetUniqueTags(issues))
    ensures forall y :: y in GetUniqueTags(issues) ==> y != "" && Trim(y) == y
  {
    var r := GetUniqueTags(issues);
    StrictlySortedNoDup(r);
    forall y | y in r
      ensures y != "" && Trim(y) == y
    {
      KeptTrimsMembership(AllTags(issues.value), y);
      var t :| t in AllTags(issues.value) && Keeps(t) && Trim(t) == y;
      TrimIdempotent(t);
    }
  }

  /** Completeness: every article tag whose trim is non-empty contributes its trim. */
  lemma UniqueTagsComplete(issues: seq<Issue>, i: nat, j: nat, k: nat)
    requires i < |issues| && j < |issues[i].articles| && k < |issues[i].articles[j].tags|
    requires Trim(issues[i].articles[j].tags[k]) != ""
    ensures Trim(issues[i].articles[j].tags[k]) in GetUniqueTags(Some(issues))
  {
    var t := issues[i].articles[j].tags[k];
    AllTagsMembership(issues, t);
    KeptTrimsMembership(AllTags(issues), Trim(t));
  }

  /** Soundness: every listed tag is the trim of some article tag. */
  lemma UniqueTagsSound(issues: seq<Issue>, y: string)
    requires y in GetUniqueTags(Some(issues))
    ensures exists i, j, k :: 0 <= i < |issues| && 0 <= j < |issues[i].articles|
                              && 0 <= k < |issues[i].articles[j].tags| && Trim(issues[i].articles[j].tags[k]) == y
  {
    KeptTrimsMembership(AllTags(issues), y);
    var t :| t in AllTags(issues) && Keeps(t) && Trim(t) == y;
    AllTagsMembership(issues, t);
  }

  // ---------------------------------------------------------------------------
  // Hover state
  // ---------------------------------------------------------------------------

  /** The preview shown while hovering an article in the list. */
  datatype ArticlePreview = ArticlePreview(title: string, author: string, coverUrl: Option<string>, tags: seq<string>)

  datatype HoverState = HoverState(hoveredArticle: Option<ArticlePreview>)

  const InitialHoverState := HoverState(None)

  function HandleArticleHover(s: HoverState, a: ArticlePreview): (r: HoverState)
    ensures r.hoveredArticle == Some(a)
  {
    HoverState(Some(a))
  }

  function HandleArticleLeave(s: HoverState): (r: HoverState)
    ensures r.hoveredArticle == None
  {
    HoverState(None)
  }

  /** The cell holds the last article hovered, and leaving always returns to the initial state. */
  lemma HoverLastWins(s: HoverState, a: ArticlePreview, b: ArticlePreview)
    ensures HandleArticleHover(HandleArticleHover(s, a), b) == HandleArticleHover(s, b)
    ensures HandleArticleLeave(HandleArticleHover(s, a)) == InitialHoverState
  {
  }
}
