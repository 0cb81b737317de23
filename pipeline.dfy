/**
 * The order in which the site's plugins run. They are registered in the order
 * `validate_articles`, `hidden_articles`, `redirect_generator`, so at "article
 * generator finalized" the validator sees the full article list before any
 * article is hidden, and at "article writer finalized" the hidden pages are
 * requested before the redirect stubs.
 */
module Pipeline {
  import opened Wrappers
  import opened Content
  import opened Output
  import opened ValidateArticles
  import opened HiddenArticles
  import opened RedirectGenerator

  /**
   * "Article generator finalized": validate, and only when validation passes hide the
   * hidden articles. A failed validation stops the build with nothing changed.
   */
  method ArticleGeneratorFinalized(g: Generator) returns (outcome: Outcome<BuildAbort>)
    requires Distinct(g.articles)
    modifies g, g.articles
    ensures outcome == Validate(old(g.articles))
    ensures outcome.Fail? ==> g.articles == old(g.articles) && g.tags == old(g.tags) && g.hiddenArticles == old(g.hiddenArticles)
    ensures outcome.Fail? ==> forall a :: a in old(g.articles) ==>
      a.nextArticle == old(a.nextArticle) && a.prevArticle == old(a.prevArticle)
    ensures outcome.Pass? ==> g.articles == Visible(old(g.articles))
    ensures outcome.Pass? ==> g.hiddenArticles == Some(Hidden(old(g.articles)))
    ensures outcome.Pass? ==> g.tags == PruneTags(old(g.tags), HiddenSet(old(g.articles)))
    ensures outcome.Pass? ==> Linked(g.articles) && LinksWithin(g.articles)
    ensures outcome.Pass? ==> forall a :: a in old(g.articles) && IsHidden(a) ==>
      a.nextArticle == old(a.nextArticle) && a.prevArticle == old(a.prevArticle)
  {
    outcome := Validate(g.articles);
    if outcome.Pass? {
      HideArticles(g);
    }
  }

  /**
   * "Article writer finalized": first one page per hidden article, then two requests
   * per `REDIRECTS` entry.
   */
  method ArticleWriterFinalized(g: Generator) returns (requests: seq<Request>)
    ensures var hidden := HiddenRecord(g);
      && |requests| == |hidden| + |RedirectRequests(g.redirects.GetOr([]), g.outputPath)|
      && (forall k :: 0 <= k < |hidden| ==> requests[k] == HiddenPage(hidden[k]))
      && requests[|hidden|..] == RedirectRequests(g.redirects.GetOr([]), g.outputPath)
  {
    var pages := WriteHiddenArticles(g);
    var stubs := GenerateRedirects(g.redirects, g.outputPath);
    requests := pages + stubs;
  }

  /**
   * Both stages in order. A failed validation issues no request at all; otherwise every
   * hidden article of the original list gets its page, in list order, and then the
   * redirect stubs follow.
   */
  method Build(g: Generator) returns (outcome: Outcome<BuildAbort>, requests: seq<Request>)
    requires Distinct(g.articles)
    modifies g, g.articles
    ensures outcome == Validate(old(g.articles))
    ensures outcome.Fail? ==> requests == []
    ensures outcome.Pass? ==> var hidden := Hidden(old(g.articles));
      && g.articles == Visible(old(g.articles))
      && |requests| == |hidden| + 2 * |g.redirects.GetOr([])|
      && (forall k :: 0 <= k < |hidden| ==> requests[k] == HiddenPage(hidden[k]))
      && requests[|hidden|..] == RedirectRequests(g.redirects.GetOr([]), g.outputPath)
  {
    requests := [];
    outcome := ArticleGeneratorFinalized(g);
    if outcome.Pass? {
      requests := ArticleWriterFinalized(g);
      RedirectRequestsLength(g.redirects.GetOr([]), g.outputPath);
    }
  }
}
