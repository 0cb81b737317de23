/**
 * The hidden-articles plugin: at "article generator finalized" it splits the
 * article list into visible and hidden articles, removes hidden articles from the
 * tag index, rebuilds the next/prev navigation links over the visible articles
 * only, and keeps the hidden ones aside; at "article writer finalized" it asks the
 * writer for one page per hidden article.
 */
module HiddenArticles {
  import opened Wrappers
  import opened Content
  import opened Output

  // ---------------------------------------------------------------------------
  // The hidden test

  /** Python's `str.lower` on one character, restricted to ASCII letters. */
  function LowerChar(c: char): char {
    if 'A' <= c <= 'Z' then (c as int - 'A' as int + 'a' as int) as char else c
  }

  /** Python's `str.lower`, character by character (ASCII model). */
  function Lower(s: string): string {
    seq(|s|, i requires 0 <= i < |s| => LowerChar(s[i]))
  }

  /** An article is hidden when its `hidden` value, lower-cased, is "true"; a missing value counts as "". */
  predicate IsHidden(a: Article) {
    Lower(a.hidden.GetOr("")) == "true"
  }

  /** "true" written in any mix of upper- and lower-case letters. */
  predicate SpellsTrue(v: string) {
    && |v| == 4
    && (v[0] == 't' || v[0] == 'T')
    && (v[1] == 'r' || v[1] == 'R')
    && (v[2] == 'u' || v[2] == 'U')
    && (v[3] == 'e' || v[3] == 'E')
  }

  /** Lower-casing gives the letter `lower` exactly for that letter and its upper-case form. */
  lemma LowerCharIs(c: char, lower: char, upper: char)
    requires 'a' <= lower <= 'z' && upper as int == lower as int - 'a' as int + 'A' as int
    ensures LowerChar(c) == lower <==> c == lower || c == upper
  {
  }

  /** The hidden test accepts exactly the case-insensitive spellings of "true", and never a missing value. */
  lemma HiddenIffSpellsTrue(a: Article)
    ensures IsHidden(a) <==> a.hidden.Some? && SpellsTrue(a.hidden.value)
  {
    var v := a.hidden.GetOr("");
    if |v| == 4 {
      LowerCharIs(v[0], 't', 'T');
      LowerCharIs(v[1], 'r', 'R');
      LowerCharIs(v[2], 'u', 'U');
      LowerCharIs(v[3], 'e', 'E');
      assert Lower(v) == [LowerChar(v[0]), LowerChar(v[1]), LowerChar(v[2]), LowerChar(v[3])];
    } else {
      assert |Lower(v)| != |"true"|;
    }
  }

  // ---------------------------------------------------------------------------
  // The partition: the two appending loops over the article list

  /** The articles of `s` that are not hidden, in their order in `s`. */
  function Visible(s: seq<Article>): (r: seq<Article>)
    ensures forall a :: a in r ==> a in s && !IsHidden(a)
    ensures forall a :: a in s ==> (a in r <==> !IsHidden(a))
    ensures |r| <= |s|
  {
    if s == [] then []
    else
      var init, last := s[..|s| - 1], s[|s| - 1];
      assert s == init + [last];
      if IsHidden(last) then Visible(init) else Visible(init) + [last]
  }

  /** The hidden articles of `s`, in their order in `s`. */
  function Hidden(s: seq<Article>): (r: seq<Article>)
    ensures forall a :: a in r ==> a in s && IsHidden(a)
    ensures forall a :: a in s ==> (a in r <==> IsHidden(a))
    ensures |r| <= |s|
  {
    if s == [] then []
    else
      var init, last := s[..|s| - 1], s[|s| - 1];
      assert s == init + [last];
      if IsHidden(last) then Hidden(init) + [last] else Hidden(init)
  }

  /** `set(hidden)`: the hidden articles of `s` as a set. */
  function HiddenSet(s: seq<Article>): (r: set<Article>)
    ensures forall a :: a in r ==> a in s && IsHidden(a)
    ensures forall a :: a in s ==> (a in r <==> IsHidden(a))
  {
    set a | a in Hidden(s)
  }

  /** `a` is a subsequence of `b`: `a` can be obtained from `b` by deleting elements. */
  predicate Subseq(a: seq<Article>, b: seq<Article>) {
    if b == [] then a == []
    else
      Subseq(a, b[..|b| - 1])
      || (a != [] && a[|a| - 1] == b[|b| - 1] && Subseq(a[..|a| - 1], b[..|b| - 1]))
  }

  /** Both halves keep the input's relative order: the partition is stable. */
  lemma {:induction false} PartitionIsStable(s: seq<Article>)
    ensures Subseq(Visible(s), s) && Subseq(Hidden(s), s)
  {
    if s != [] {
      var init := s[..|s| - 1];
      PartitionIsStable(init);
      assert (Visible(init) + [s[|s| - 1]])[..|Visible(init)|] == Visible(init);
      assert (Hidden(init) + [s[|s| - 1]])[..|Hidden(init)|] == Hidden(init);
    }
  }

  /** Every occurrence of an input article lands in exactly one of the two halves. */
  lemma {:induction false} PartitionKeepsEveryArticle(s: seq<Article>)
    ensures multiset(Visible(s)) + multiset(Hidden(s)) == multiset(s)
  {
    if s != [] {
      var init, last := s[..|s| - 1], s[|s| - 1];
      PartitionKeepsEveryArticle(init);
      assert s == init + [last];
    }
  }

  /** An article list without repetitions keeps that property when the hidden articles are dropped. */
  lemma {:induction false} VisibleIsDistinct(s: seq<Article>)
    requires Distinct(s)
    ensures Distinct(Visible(s))
  {
    if s != [] {
      var init, last := s[..|s| - 1], s[|s| - 1];
      assert Distinct(init);
      VisibleIsDistinct(init);
      assert last !in init;
    }
  }

  // ---------------------------------------------------------------------------
  // Tag pruning: the two comprehensions over the tag index

  /** `[a for a in articles if a not in hidden_set]`. */
  function WithoutHidden(s: seq<Article>, hiddenSet: set<Article>): (r: seq<Article>)
    ensures forall a :: a in r ==> a in s && a !in hiddenSet
    ensures forall a :: a in s ==> (a in r <==> a !in hiddenSet)
  {
    if s == [] then []
    else
      var init, last := s[..|s| - 1], s[|s| - 1];
      assert s == init + [last];
      if last in hiddenSet then WithoutHidden(init, hiddenSet) else WithoutHidden(init, hiddenSet) + [last]
  }

  /** Filtering a tag list keeps the order of the articles it keeps. */
  lemma {:induction false} WithoutHiddenIsStable(s: seq<Article>, hiddenSet: set<Article>)
    ensures Subseq(WithoutHidden(s, hiddenSet), s)
  {
    if s != [] {
      var init := s[..|s| - 1];
      WithoutHiddenIsStable(init, hiddenSet);
      var w := WithoutHidden(init, hiddenSet);
      assert (w + [s[|s| - 1]])[..|w|] == w;
    }
  }

  /** `{t: a for t, a in tags.items() if a}`: the tags whose lists are non-empty. */
  function NonEmptyTags(tags: map<string, seq<Article>>): map<string, seq<Article>> {
    map t | t in tags && tags[t] != [] :: tags[t]
  }

  /** The tag index after both steps: filter every list, then drop the tags left empty. */
  function PruneTags(tags: map<string, seq<Article>>, hiddenSet: set<Article>): (r: map<string, seq<Article>>)
    ensures forall t :: t in r <==> t in tags && exists a :: a in tags[t] && a !in hiddenSet
    ensures forall t :: t in r ==> r[t] == WithoutHidden(tags[t], hiddenSet)
  {
    var filtered := map t | t in tags :: WithoutHidden(tags[t], hiddenSet);
    assert forall t :: t in tags ==> (filtered[t] != [] <==> exists a :: a in tags[t] && a !in hiddenSet) by {
      forall t | t in tags
        ensures filtered[t] != [] <==> exists a :: a in tags[t] && a !in hiddenSet
      {
        if filtered[t] != [] {
          assert filtered[t][0] in filtered[t];
        }
      }
    }
    NonEmptyTags(filtered)
  }

  /** Dropping the empty lists of a tag index whose lists were all filtered gives the pruned index. */
  lemma PruneTagsOfFiltered(tags: map<string, seq<Article>>, filtered: map<string, seq<Article>>, hiddenSet: set<Article>)
    requires filtered.Keys == tags.Keys
    requires forall t :: t in filtered ==> filtered[t] == WithoutHidden(tags[t], hiddenSet)
    ensures NonEmptyTags(filtered) == PruneTags(tags, hiddenSet)
  {
    assert filtered == map t | t in tags :: WithoutHidden(tags[t], hiddenSet);
  }

  /** After pruning, no tag holds a hidden article, no tag is empty, and each list keeps its order. */
  lemma PrunedTagsAreClean(tags: map<string, seq<Article>>, hiddenSet: set<Article>)
    ensures forall t :: t in PruneTags(tags, hiddenSet) ==>
      && PruneTags(tags, hiddenSet)[t] != []
      && (forall a :: a in PruneTags(tags, hiddenSet)[t] ==> a !in hiddenSet && a in tags[t])
      && Subseq(PruneTags(tags, hiddenSet)[t], tags[t])
  {
    var r := PruneTags(tags, hiddenSet);
    forall t | t in r
      ensures r[t] != [] && Subseq(r[t], tags[t])
    {
      var a :| a in tags[t] && a !in hiddenSet;
      assert a in r[t];
      WithoutHiddenIsStable(tags[t], hiddenSet);
    }
  }

  /** When every tagged article is in the article list, the pruned tag index holds visible articles only. */
  lemma PrunedTagsHoldVisibleArticles(tags: map<string, seq<Article>>, articles: seq<Article>)
    requires forall t, a :: t in tags && a in tags[t] ==> a in articles
    ensures forall t, a :: t in PruneTags(tags, HiddenSet(articles)) && a in PruneTags(tags, HiddenSet(articles))[t] ==>
      a in Visible(articles)
  {
    var r := PruneTags(tags, HiddenSet(articles));
    forall t, a | t in r && a in r[t]
      ensures a in Visible(articles)
    {
      assert a in tags[t] && a !in HiddenSet(articles);
    }
  }

  // ---------------------------------------------------------------------------
  // Navigation links over the visible articles

  /** What `v[i].next_article` is set to: the article before it, toward index 0. */
  function NextOf(v: seq<Article>, i: nat): Article?
    requires i < |v|
  {
    if i > 0 then v[i - 1] else null
  }

  /** What `v[i].prev_article` is set to: the article after it, toward the end. */
  function PrevOf(v: seq<Article>, i: nat): Article?
    requires i < |v|
  {
    if i < |v| - 1 then v[i + 1] else null
  }

  /** Every article of `v` carries exactly the links of its position in `v`. */
  ghost predicate Linked(v: seq<Article>)
    reads v
  {
    forall i :: 0 <= i < |v| ==> v[i].nextArticle == NextOf(v, i) && v[i].prevArticle == PrevOf(v, i)
  }

  /** The articles a reader visits by following `prev_article` links from `a`, staying within `pages`. */
  ghost function FollowPrev(a: Article?, steps: nat, pages: set<Article>): seq<Article>
    reads pages
    decreases steps
  {
    if a == null || a !in pages || steps == 0 then [] else [a] + FollowPrev(a.prevArticle, steps - 1, pages)
  }

  /** The articles a reader visits by following `next_article` links from `a`, staying within `pages`. */
  ghost function FollowNext(a: Article?, steps: nat, pages: set<Article>): seq<Article>
    reads pages
    decreases steps
  {
    if a == null || a !in pages || steps == 0 then [] else [a] + FollowNext(a.nextArticle, steps - 1, pages)
  }

  function Reversed(s: seq<Article>): seq<Article> {
    if s == [] then [] else [s[|s| - 1]] + Reversed(s[..|s| - 1])
  }

  /** The articles of `v`, as the set of pages a reader can reach. */
  function Pages(v: seq<Article>): set<Article> {
    set a | a in v
  }

  lemma SliceFrom<T>(s: seq<T>, i: nat)
    requires i < |s|
    ensures s[i..] == [s[i]] + s[i + 1..]
  {
  }

  lemma {:induction false} FollowPrevFrom(v: seq<Article>, i: nat)
    requires Linked(v) && i < |v|
    ensures FollowPrev(v[i], |v| - i, Pages(v)) == v[i..]
    decreases |v| - i
  {
    SliceFrom(v, i);
    if i < |v| - 1 {
      FollowPrevFrom(v, i + 1);
    }
  }

  lemma {:induction false} FollowNextFrom(v: seq<Article>, i: nat)
    requires Linked(v) && i < |v|
    ensures FollowNext(v[i], i + 1, Pages(v)) == Reversed(v[..i + 1])
  {
    assert v[..i + 1][..i] == v[..i];
    if i > 0 {
      FollowNextFrom(v, i - 1);
    }
  }

  /**
   * On a linked list, walking `prev_article` from the first article visits exactly the
   * list, in order, and walking `next_article` from the last visits it backwards.
   */
  lemma NavigationWalksTheList(v: seq<Article>)
    requires Linked(v) && v != []
    ensures FollowPrev(v[0], |v|, Pages(v)) == v
    ensures FollowNext(v[|v| - 1], |v|, Pages(v)) == Reversed(v)
  {
    FollowPrevFrom(v, 0);
    FollowNextFrom(v, |v| - 1);
    assert v[..|v|] == v;
  }

  // ---------------------------------------------------------------------------
  // hide_articles

  /** The two appending loops: route each article to `hidden` or `visible`, keeping the order. */
  method Partition(articles: seq<Article>) returns (hidden: seq<Article>, visible: seq<Article>)
    ensures hidden == Hidden(articles) && visible == Visible(articles)
  {
    hidden, visible := [], [];
    for k := 0 to |articles|
      invariant hidden == Hidden(articles[..k]) && visible == Visible(articles[..k])
    {
      assert articles[..k + 1][..k] == articles[..k];
      if IsHidden(articles[k]) {
        hidden := hidden + [articles[k]];
      } else {
        visible := visible + [articles[k]];
      }
    }
    assert articles[..|articles|] == articles;
  }

  /** Filter every tag list in place, then keep only the tags whose lists are non-empty. */
  method PruneTagIndex(g: Generator, hiddenSet: set<Article>)
    modifies g
    ensures g.tags == PruneTags(old(g.tags), hiddenSet)
    ensures g.articles == old(g.articles) && g.hiddenArticles == old(g.hiddenArticles)
  {
    ghost var tags0 := g.tags;
    var pending := g.tags.Keys;
    while pending != {}
      invariant pending <= tags0.Keys && g.tags.Keys == tags0.Keys
      invariant forall t :: t in g.tags ==> g.tags[t] == if t in pending then tags0[t] else WithoutHidden(tags0[t], hiddenSet)
      invariant g.articles == old(g.articles) && g.hiddenArticles == old(g.hiddenArticles)
      decreases pending
    {
      var t :| t in pending;
      g.tags := g.tags[t := WithoutHidden(g.tags[t], hiddenSet)];
      pending := pending - {t};
    }
    PruneTagsOfFiltered(tags0, g.tags, hiddenSet);
    g.tags := NonEmptyTags(g.tags);
  }

  /** The indexed loop: give every article of `visible` the links of its position, and touch nothing else. */
  method Relink(visible: seq<Article>)
    requires Distinct(visible)
    modifies visible
    ensures Linked(visible)
  {
    for i := 0 to |visible|
      invariant forall j :: 0 <= j < i ==>
        visible[j].nextArticle == NextOf(visible, j) && visible[j].prevArticle == PrevOf(visible, j)
    {
      visible[i].nextArticle := if i > 0 then visible[i - 1] else null;
      visible[i].prevArticle := if i < |visible| - 1 then visible[i + 1] else null;
    }
  }

  /**
   * Relink the visible articles, then make them the generator's article list and
   * record the hidden ones.
   */
  method Publish(g: Generator, visible: seq<Article>, hidden: seq<Article>)
    requires Distinct(visible)
    modifies g, visible
    ensures g.articles == visible && g.hiddenArticles == Some(hidden) && g.tags == old(g.tags)
    ensures Linked(visible) && LinksWithin(visible)
  {
    // Link each visible article to its neighbours in the visible list only
    Relink(visible);
    LinksStayInList(visible);

    g.articles := visible;
    g.hiddenArticles := Some(hidden);
  }

  /**
   * Partition the articles, prune the tag index, relink the visible articles, then
   * replace the article list by the visible ones and record the hidden ones.
   */
  method HideArticles(g: Generator)
    requires Distinct(g.articles)
    modifies g, g.articles
    ensures g.articles == Visible(old(g.articles))
    ensures g.hiddenArticles == Some(Hidden(old(g.articles)))
    ensures g.tags == PruneTags(old(g.tags), HiddenSet(old(g.articles)))
    ensures Linked(g.articles)
    ensures forall a :: a in old(g.articles) && IsHidden(a) ==>
      a.nextArticle == old(a.nextArticle) && a.prevArticle == old(a.prevArticle)
    ensures LinksWithin(g.articles)
  {
    var hidden, visible := Partition(g.articles);

    // Prune the tag index by the hidden articles; `HiddenSet(g.articles)` is `set(hidden)`
    PruneTagIndex(g, HiddenSet(g.articles));

    VisibleIsDistinct(old(g.articles));
    ghost var articles := old(g.articles);
    assert forall i :: 0 <= i < |visible| ==> visible[i] in visible && visible[i] in articles;
    Publish(g, visible, hidden);
  }

  /** Every link out of an article of `v` is absent or leads to an article of `v`; with at most one article there are none. */
  ghost predicate LinksWithin(v: seq<Article>)
    reads v
  {
    && (forall a :: a in v ==>
         (a.nextArticle == null || a.nextArticle in v) && (a.prevArticle == null || a.prevArticle in v))
    && (|v| <= 1 ==> forall a :: a in v ==> a.nextArticle == null && a.prevArticle == null)
  }

  /** A linked list only links to its own articles, so no visible article links to a hidden one. */
  lemma LinksStayInList(v: seq<Article>)
    requires Linked(v)
    ensures LinksWithin(v)
  {
    forall a | a in v
      ensures (a.nextArticle == null || a.nextArticle in v) && (a.prevArticle == null || a.prevArticle in v)
    {
      var i :| 0 <= i < |v| && v[i] == a;
    }
  }

  // ---------------------------------------------------------------------------
  // write_hidden_articles

  /** `getattr(generator, "_hidden_articles", [])`. */
  function HiddenRecord(g: Generator): seq<Article>
    reads g
  {
    g.hiddenArticles.GetOr([])
  }

  /** The page request issued for one hidden article: the ordinary article template, at its own path. */
  function HiddenPage(a: Article): Request {
    RenderPage(a.saveAs, "article", a, a.category, true)
  }

  /** One page request per recorded hidden article, in record order; none when nothing was recorded. */
  method WriteHiddenArticles(g: Generator) returns (requests: seq<Request>)
    ensures |requests| == |HiddenRecord(g)|
    ensures forall k :: 0 <= k < |requests| ==>
      requests[k] == HiddenPage(HiddenRecord(g)[k])
    ensures g.hiddenArticles == None ==> requests == []
  {
    var record := HiddenRecord(g);
    requests := [];
    for k := 0 to |record|
      invariant |requests| == k
      invariant forall j :: 0 <= j < k ==> requests[j] == HiddenPage(record[j])
    {
      requests := requests + [HiddenPage(record[k])];
    }
  }
}
