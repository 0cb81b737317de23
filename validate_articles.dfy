/**
 * The article-validation plugin: at "article generator finalized" it walks the
 * article list in order and aborts the build at the first article that is not a
 * draft and has no date. The raised exception is modelled as a `Fail` outcome.
 */
module ValidateArticles {
  import opened Wrappers
  import opened Content

  /** Why the build stops: the source path of the first undated non-draft article. */
  datatype BuildAbort = NoDate(sourcePath: string)

  /** The text around the path in the exception's message. */
  const MESSAGE_HEAD := "Article '"
  const MESSAGE_TAIL := "' has no date. Add a 'Date:' metadata field or set 'Status: draft'."

  /** The exception's text: the offending source path, quoted, then how to fix it. */
  function Message(e: BuildAbort): string {
    MESSAGE_HEAD + e.sourcePath + MESSAGE_TAIL
  }

  /** The message tells the offending articles apart: equal messages name the same path. */
  lemma MessageIdentifiesArticle(e1: BuildAbort, e2: BuildAbort)
    ensures Message(e1) == Message(e2) <==> e1 == e2
  {
    if Message(e1) == Message(e2) {
      var n, p1, p2 := |MESSAGE_HEAD|, e1.sourcePath, e2.sourcePath;
      assert |p1| == |p2| by {
        assert |Message(e1)| == n + |p1| + |MESSAGE_TAIL|;
        assert |Message(e2)| == n + |p2| + |MESSAGE_TAIL|;
      }
      assert p1 == Message(e1)[n..n + |p1|];
      assert p2 == Message(e2)[n..n + |p2|];
    }
  }

  /**
   * When validation fails, the exception's text starts with the fixed head, then quotes
   * the source path of the first article in list order that offends, then gives the
   * fixed advice.
   */
  lemma FailureMessageNamesFirstOffender(articles: seq<Article>)
    requires Validate(articles).Fail?
    ensures var m := Message(Validate(articles).error);
      exists i :: (&& 0 <= i < |articles| && Offends(articles[i])
                   && (forall j :: 0 <= j < i ==> !Offends(articles[j]))
                   && var n, p := |MESSAGE_HEAD|, articles[i].sourcePath;
                   && |m| == n + |p| + |MESSAGE_TAIL|
                   && m[..n] == MESSAGE_HEAD && m[n..n + |p|] == p && m[n + |p|..] == MESSAGE_TAIL)
  {
    var e := Validate(articles).error;
    var i :| (&& 0 <= i < |articles| && Offends(articles[i])
              && (forall j :: 0 <= j < i ==> !Offends(articles[j]))
              && e == NoDate(articles[i].sourcePath));
    var m, n, p := Message(e), |MESSAGE_HEAD|, articles[i].sourcePath;
    assert m[..n] == MESSAGE_HEAD && m[n..n + |p|] == p && m[n + |p|..] == MESSAGE_TAIL;
  }

  /** Only the exact status `"draft"` exempts an article; the comparison is case-sensitive. */
  predicate IsDraft(a: Article) {
    a.status == "draft"
  }

  /** The article has no `date` attribute, or has one that is `None`. */
  predicate LacksDate(a: Article) {
    a.date.Absent? || a.date.NoneDate?
  }

  /** An article that stops the build. */
  predicate Offends(a: Article) {
    !IsDraft(a) && LacksDate(a)
  }

  /**
   * `validate_articles`: the build passes exactly when no article offends, and when it
   * fails it names the first offender in list order.
   */
  function Validate(articles: seq<Article>): (r: Outcome<BuildAbort>)
    ensures r.Pass? <==> forall i :: 0 <= i < |articles| ==> !Offends(articles[i])
    ensures r.Fail? ==>
      exists i :: (&& 0 <= i < |articles| && Offends(articles[i])
                   && (forall j :: 0 <= j < i ==> !Offends(articles[j]))
                   && r.error == NoDate(articles[i].sourcePath))
  {
    if articles == [] then Pass
    else if Offends(articles[0]) then Fail(NoDate(articles[0].sourcePath))
    else
      var r := Validate(articles[1..]);
      assert forall i :: 1 <= i < |articles| ==> articles[i] == articles[1..][i - 1];
      if r.Fail? then
        var i :| 0 <= i < |articles[1..]| && Offends(articles[1..][i])
          && (forall j :: 0 <= j < i ==> !Offends(articles[1..][j]))
          && r.error == NoDate(articles[1..][i].sourcePath);
        assert Offends(articles[i + 1]) && r.error == NoDate(articles[i + 1].sourcePath);
        r
      else r
  }

  /** The articles of `s` that are not drafts, in order. */
  function NonDrafts(s: seq<Article>): (r: seq<Article>)
    ensures forall a :: a in r ==> a in s && !IsDraft(a)
    ensures forall a :: a in s ==> (a in r <==> !IsDraft(a))
  {
    if s == [] then []
    else if IsDraft(s[0]) then NonDrafts(s[1..])
    else [s[0]] + NonDrafts(s[1..])
  }

  /** Drafts are invisible to validation: removing them changes no outcome. */
  lemma {:induction false} DraftsAreIgnored(articles: seq<Article>)
    ensures Validate(articles) == Validate(NonDrafts(articles))
  {
    if articles != [] {
      DraftsAreIgnored(articles[1..]);
      if !IsDraft(articles[0]) {
        assert ([articles[0]] + NonDrafts(articles[1..]))[1..] == NonDrafts(articles[1..]);
      }
    }
  }

  /**
   * Validation is fail-fast and left to right: over `first + rest` it is the outcome of
   * `first` when that fails, and otherwise the outcome of `rest`.
   */
  lemma {:induction false} ValidateConcat(first: seq<Article>, rest: seq<Article>)
    ensures Validate(first + rest) == if Validate(first).Fail? then Validate(first) else Validate(rest)
  {
    if first == [] {
      assert first + rest == rest;
    } else {
      assert (first + rest)[1..] == first[1..] + rest;
      ValidateConcat(first[1..], rest);
    }
  }

  /** A capitalised `"Draft"` status does not exempt an undated article. */
  lemma CapitalisedDraftFails(a: Article)
    requires a.status == "Draft" && a.date == Absent
    ensures Validate([a]) == Fail(NoDate(a.sourcePath))
  {
    assert a.status[0] != "draft"[0];
  }
}
