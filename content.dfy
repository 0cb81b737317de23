/**
 * The host pipeline's content objects, as the plugins see them: articles with
 * their metadata and mutable navigation links, and the article generator that
 * owns the ordered article list and the tag index.
 */
module Content {
  import opened Wrappers

  /** The `date` attribute of an article: missing, present but `None`, or a date. */
  datatype DateAttr = Absent | NoneDate | Dated(text: string)

  /**
   * One parsed article. Its metadata never changes while the plugins run; only the
   * two navigation links are reassigned. Two articles are the same article exactly
   * when they are the same object.
   */
  class Article {
    const sourcePath: string
    const saveAs: string
    const category: string
    const status: string
    const date: DateAttr
    /** The `hidden` metadata value, `None` when the article has no such attribute. */
    const hidden: Option<string>
    var nextArticle: Article?
    var prevArticle: Article?

    constructor (sourcePath: string, saveAs: string, category: string, status: string,
                 date: DateAttr, hidden: Option<string>)
      ensures this.sourcePath == sourcePath && this.saveAs == saveAs && this.category == category
      ensures this.status == status && this.date == date && this.hidden == hidden
      ensures nextArticle == null && prevArticle == null
    {
      this.sourcePath := sourcePath;
      this.saveAs := saveAs;
      this.category := category;
      this.status := status;
      this.date := date;
      this.hidden := hidden;
      nextArticle := null;
      prevArticle := null;
    }
  }

  /**
   * The article generator: the ordered article list, the tag index, the record of
   * hidden articles (absent until the hiding stage has run), and the two settings
   * the plugins read: the output root and the `REDIRECTS` table (absent when the
   * configuration has none; its entries in the dictionary's insertion order).
   */
  class Generator {
    var articles: seq<Article>
    var tags: map<string, seq<Article>>
    var hiddenArticles: Option<seq<Article>>
    const outputPath: string
    const redirects: Option<seq<(string, string)>>

    constructor (articles: seq<Article>, tags: map<string, seq<Article>>,
                 outputPath: string, redirects: Option<seq<(string, string)>>)
      ensures this.articles == articles && this.tags == tags && hiddenArticles == None
      ensures this.outputPath == outputPath && this.redirects == redirects
    {
      this.articles := articles;
      this.tags := tags;
      hiddenArticles := None;
      this.outputPath := outputPath;
      this.redirects := redirects;
    }
  }

  /** No article occurs twice in `s`. */
  predicate Distinct(s: seq<Article>) {
    forall i, j :: 0 <= i < j < |s| ==> s[i] != s[j]
  }
}
