/**
 * Concrete scenarios of the model, proved by the verifier: the three-article hiding
 * example, a build stopped by an undated article, a build with an undated draft, and a
 * one-entry redirect table.
 */
module Scenarios {
  import opened Wrappers
  import opened Content
  import opened Output
  import opened HiddenArticles
  import opened ValidateArticles
  import opened RedirectGenerator
  import opened Pipeline

  /** The partition of three articles whose middle one alone is hidden. */
  lemma {:induction false} PartitionOfThree(a: Article, b: Article, c: Article)
    requires !IsHidden(a) && IsHidden(b) && !IsHidden(c)
    ensures Visible([a, b, c]) == [a, c] && Hidden([a, b, c]) == [b]
  {
    assert [a, b, c][..2] == [a, b];
    assert [a, b][..1] == [a];
    assert [a][..0] == [];
    assert Visible([a]) == [a] && Hidden([a]) == [];
    assert Visible([a, b]) == [a] && Hidden([a, b]) == [b];
  }

  /**
   * Articles A (`hidden: false`), B (`hidden: true`) and C (`hidden: false`), in that
   * order: A and C stay published, B is set aside, and A and C link only to each other.
   */
  method ThreeArticles() returns (a: Article, b: Article, c: Article, g: Generator)
    ensures g.articles == [a, c] && g.hiddenArticles == Some([b])
    ensures a.nextArticle == null && a.prevArticle == c
    ensures c.nextArticle == a && c.prevArticle == null
  {
    a := new Article("a.md", "a.html", "misc", "published", Dated("2024-01-03"), Some("false"));
    b := new Article("b.md", "b.html", "misc", "published", Dated("2024-01-02"), Some("true"));
    c := new Article("c.md", "c.html", "misc", "published", Dated("2024-01-01"), Some("false"));
    g := new Generator([a, b, c], map[], "output", None);
    HiddenIffSpellsTrue(a);
    HiddenIffSpellsTrue(b);
    HiddenIffSpellsTrue(c);
    PartitionOfThree(a, b, c);
    HideArticles(g);
    assert g.articles[0] == a && g.articles[1] == c;
  }

  /** A published article without a date stops the build, naming its source file; nothing is written. */
  method UndatedArticleStopsBuild() returns (outcome: Outcome<BuildAbort>, requests: seq<Request>)
    ensures outcome == Fail(NoDate("undated.md")) && requests == []
  {
    var draft := new Article("draft.md", "draft.html", "misc", "draft", Absent, None);
    var undated := new Article("undated.md", "undated.html", "misc", "published", NoneDate, None);
    var g := new Generator([draft, undated], map[], "output", None);
    outcome, requests := Build(g);
  }

  /** A draft without a date does not stop the build. */
  method UndatedDraftBuilds() returns (outcome: Outcome<BuildAbort>)
    ensures outcome == Pass
  {
    var draft := new Article("draft.md", "draft.html", "misc", "draft", Absent, None);
    var g := new Generator([draft], map[], "output", None);
    var requests;
    outcome, requests := Build(g);
  }

  /** The table `{"/old/path/": "/new-path/"}` with an empty output root writes `old/path/index.html`. */
  method OldPathRedirect() returns (requests: seq<Request>)
    ensures requests == [MakeDirs("old/path"), WriteText("old/path/index.html", RedirectHtml("/new-path/"))]
  {
    requests := GenerateRedirects(Some([(OLD_SOURCE, "/new-path/")]), "");
    RedirectRequestsOfOne((OLD_SOURCE, "/new-path/"), "");
    OldPathStub("/new-path/");
  }
}
