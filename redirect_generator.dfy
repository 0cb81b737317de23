/**
 * The redirect-generator plugin: at "article writer finalized", for every entry
 * (source, destination) of the `REDIRECTS` setting it writes a small HTML page at
 * `<output root>/<source without surrounding slashes>/index.html` that sends the
 * browser on to the destination. The directory creation and the file write are
 * modelled as emitted requests.
 */
module RedirectGenerator {
  import opened Wrappers
  import opened PosixPath
  import opened Output

  // ---------------------------------------------------------------------------
  // The stub page

  /** A format string, as `str.format` sees it: literal text and `{destination}` fields. */
  datatype Piece = Text(text: string) | DestinationField

  /** `REDIRECT_TEMPLATE`, cut at its four `{destination}` fields. */
  const REDIRECT_TEMPLATE: seq<Piece> := [
    Text("<!DOCTYPE html>\n<html>\n<head>\n<meta charset=\"utf-8\">\n<meta http-equiv=\"refresh\" content=\"0; url="),
    DestinationField,
    Text("\">\n<link rel=\"canonical\" href=\""),
    DestinationField,
    Text("\">\n</head>\n<body>\n<p>This page has moved to <a href=\""),
    DestinationField,
    Text("\">"),
    DestinationField,
    Text("</a>.</p>\n</body>\n</html>\n")
  ]

  /** `template.format(destination=destination)`: every field replaced by `destination`. */
  function Format(template: seq<Piece>, destination: string): string {
    if template == [] then []
    else
      (match template[0]
       case Text(x) => x
       case DestinationField => destination)
      + Format(template[1..], destination)
  }

  function FieldCount(template: seq<Piece>): nat {
    if template == [] then 0 else (if template[0].DestinationField? then 1 else 0) + FieldCount(template[1..])
  }

  function TextLength(template: seq<Piece>): nat {
    if template == [] then 0 else (if template[0].Text? then |template[0].text| else 0) + TextLength(template[1..])
  }

  /** The template has exactly four `{destination}` fields. */
  lemma TemplateHasFourFields()
    ensures FieldCount(REDIRECT_TEMPLATE) == 4
  {
    var t := REDIRECT_TEMPLATE;
    assert FieldCount(t[8..]) == 0;
    assert FieldCount(t[6..]) == 1;
    assert FieldCount(t[4..]) == 2;
    assert FieldCount(t[2..]) == 3;
  }

  /** Each field contributes one copy of the destination, and nothing else depends on it. */
  lemma {:induction false} FormatLength(template: seq<Piece>, destination: string)
    ensures |Format(template, destination)| == TextLength(template) + FieldCount(template) * |destination|
  {
    if template != [] {
      FormatLength(template[1..], destination);
      var rest := FieldCount(template[1..]);
      if template[0].DestinationField? {
        assert FieldCount(template) * |destination| == rest * |destination| + |destination|;
      }
    }
  }

  lemma {:induction false} FormatInjectiveSameLength(template: seq<Piece>, d1: string, d2: string)
    requires |d1| == |d2| && FieldCount(template) > 0
    requires Format(template, d1) == Format(template, d2)
    ensures d1 == d2
  {
    var rest := template[1..];
    match template[0]
    case Text(x) =>
      assert Format(rest, d1) == Format(template, d1)[|x|..];
      assert Format(rest, d2) == Format(template, d2)[|x|..];
      FormatInjectiveSameLength(rest, d1, d2);
    case DestinationField =>
      assert d1 == Format(template, d1)[..|d1|];
      assert d2 == Format(template, d2)[..|d2|];
  }

  lemma {:induction false} ScaleStrict(n: nat, x: nat, y: nat)
    requires n > 0 && x < y
    ensures n * x < n * y
  {
    if n > 1 {
      ScaleStrict(n - 1, x, y);
      assert n * x == (n - 1) * x + x && n * y == (n - 1) * y + y;
    }
  }

  /** A template with a field tells its destinations apart: the page determines the destination. */
  lemma FormatDeterminesDestination(template: seq<Piece>, d1: string, d2: string)
    requires FieldCount(template) > 0
    ensures Format(template, d1) == Format(template, d2) <==> d1 == d2
  {
    if Format(template, d1) == Format(template, d2) {
      FormatLength(template, d1);
      FormatLength(template, d2);
      if |d1| < |d2| {
        ScaleStrict(FieldCount(template), |d1|, |d2|);
      } else if |d2| < |d1| {
        ScaleStrict(FieldCount(template), |d2|, |d1|);
      }
      FormatInjectiveSameLength(template, d1, d2);
    }
  }

  /** `REDIRECT_TEMPLATE.format(destination=destination)`. */
  function RedirectHtml(destination: string): string {
    Format(REDIRECT_TEMPLATE, destination)
  }

  /**
   * The stub page grows by four copies of the destination over the template's own text,
   * and different destinations give different pages.
   */
  lemma RedirectHtmlShape(destination: string)
    ensures |RedirectHtml(destination)| == TextLength(REDIRECT_TEMPLATE) + 4 * |destination|
    ensures forall other :: RedirectHtml(other) == RedirectHtml(destination) <==> other == destination
  {
    TemplateHasFourFields();
    FormatLength(REDIRECT_TEMPLATE, destination);
    forall other
      ensures RedirectHtml(other) == RedirectHtml(destination) <==> other == destination
    {
      FormatDeterminesDestination(REDIRECT_TEMPLATE, other, destination);
    }
  }

  // ---------------------------------------------------------------------------
  // Where the stub goes

  /** `os.path.join(source.strip("/"), "index.html")`: the stub's path below the output root. */
  function RelativeStubPath(source: string): string {
    Join(Strip(source), "index.html")
  }

  /** `os.path.join(generator.output_path, output_path)`. */
  function StubPath(outputRoot: string, source: string): string {
    Join(outputRoot, RelativeStubPath(source))
  }

  /** The relative path is `<stripped>/index.html`, or `index.html` when nothing is left after stripping. */
  lemma RelativeStubPathShape(source: string)
    ensures Strip(source) == [] ==> RelativeStubPath(source) == "index.html"
    ensures Strip(source) != [] ==> RelativeStubPath(source) == Strip(source) + "/index.html"
    ensures RelativeStubPath(source)[0] != '/'
  {
    var st := Strip(source);
    if st == [] {
      JoinOntoEmpty("index.html");
    } else {
      JoinAfterName(st, "index.html");
      IndexFileName();
    }
  }

  lemma IndexFileName()
    ensures "/" + "index.html" == "/index.html" && "index.html"[0] == 'i' && '/' !in "index.html"
  {
  }

  /** Two entries write the same stub exactly when their sources strip to the same path. */
  lemma StubPathsCollideIffSameSource(source1: string, source2: string)
    ensures RelativeStubPath(source1) == RelativeStubPath(source2) <==> Strip(source1) == Strip(source2)
  {
    var s1, s2 := Strip(source1), Strip(source2);
    RelativeStubPathShape(source1);
    RelativeStubPathShape(source2);
    if RelativeStubPath(source1) == RelativeStubPath(source2) {
      if s1 != [] && s2 != [] {
        assert s1 == RelativeStubPath(source1)[..|RelativeStubPath(source1)| - 11];
      }
    }
  }

  /** The stub lands under the output root: the root is a prefix, the relative path a suffix, at most one '/' between. */
  lemma StubPathUnderRoot(outputRoot: string, source: string)
    ensures var p := StubPath(outputRoot, source);
      && p[..|outputRoot|] == outputRoot
      && p[|p| - |RelativeStubPath(source)|..] == RelativeStubPath(source)
      && |outputRoot| + |RelativeStubPath(source)| <= |p| <= |outputRoot| + |RelativeStubPath(source)| + 1
  {
    RelativeStubPathShape(source);
    JoinRelative(outputRoot, RelativeStubPath(source));
  }

  /** The directory created for a stub is the output root joined with the stripped source. */
  lemma StubDirectory(outputRoot: string, source: string)
    requires Strip(source) != []
    ensures Dirname(StubPath(outputRoot, source)) == Join(outputRoot, Strip(source))
  {
    var st := Strip(source);
    RelativeStubPathShape(source);
    IndexFileName();
    JoinThenName(outputRoot, st, "index.html");
    DirnameOfFile(Join(outputRoot, st), "index.html");
  }

  /** The two requests of one `REDIRECTS` entry: create the stub's directory, then write the stub. */
  function StubRequests(outputRoot: string, source: string, destination: string): seq<Request> {
    var path := StubPath(outputRoot, source);
    [MakeDirs(Dirname(path)), WriteText(path, RedirectHtml(destination))]
  }

  /** The requests of an entry whose source strips to a non-empty `inner`. */
  lemma StubRequestsOfStripped(outputRoot: string, source: string, destination: string, inner: string)
    requires Strip(source) == inner && inner != []
    ensures StubRequests(outputRoot, source, destination)
      == [MakeDirs(Join(outputRoot, inner)), WriteText(Join(outputRoot, inner + "/index.html"), RedirectHtml(destination))]
  {
    RelativeStubPathShape(source);
    StubDirectory(outputRoot, source);
  }

  /** `f` applied to every element of `xs`, the results concatenated in order. */
  function ConcatMap<A, B>(xs: seq<A>, f: A -> seq<B>): seq<B> {
    if xs == [] then [] else ConcatMap(xs[..|xs| - 1], f) + f(xs[|xs| - 1])
  }

  lemma AppendSlice<T>(before: seq<T>, last: seq<T>, k: nat)
    requires |last| == 2 && 2 * k + 2 <= |before| + 2
    ensures 2 * k + 2 <= |before| ==> (before + last)[2 * k..2 * k + 2] == before[2 * k..2 * k + 2]
    ensures 2 * k == |before| ==> (before + last)[2 * k..2 * k + 2] == last
  {
  }

  /** When `f` always gives two elements, element `k` of `xs` accounts for positions `2k` and `2k + 1`. */
  lemma {:induction false} ConcatMapAt<A, B>(xs: seq<A>, f: A -> seq<B>, k: nat)
    requires forall x :: |f(x)| == 2
    requires k < |xs|
    ensures |ConcatMap(xs, f)| == 2 * |xs|
    ensures ConcatMap(xs, f)[2 * k..2 * k + 2] == f(xs[k])
  {
    var init := xs[..|xs| - 1];
    ConcatMapLength(init, f);
    AppendSlice(ConcatMap(init, f), f(xs[|xs| - 1]), k);
    if k < |init| {
      ConcatMapAt(init, f, k);
    }
  }

  lemma {:induction false} ConcatMapLength<A, B>(xs: seq<A>, f: A -> seq<B>)
    requires forall x :: |f(x)| == 2
    ensures |ConcatMap(xs, f)| == 2 * |xs|
  {
    if xs != [] {
      ConcatMapLength(xs[..|xs| - 1], f);
    }
  }

  lemma ConcatMapOne<A, B>(x: A, f: A -> seq<B>)
    ensures ConcatMap([x], f) == f(x)
  {
    assert [x][..0] == [];
  }

  /** The requests of one entry, for a fixed output root. */
  function EntryRequests(outputRoot: string): ((string, string)) -> seq<Request> {
    (entry: (string, string)) => StubRequests(outputRoot, entry.0, entry.1)
  }

  /** All requests for a table of entries, entry after entry. */
  function RedirectRequests(entries: seq<(string, string)>, outputRoot: string): seq<Request> {
    ConcatMap(entries, EntryRequests(outputRoot))
  }

  /** Two requests per entry. */
  lemma RedirectRequestsLength(entries: seq<(string, string)>, outputRoot: string)
    ensures |RedirectRequests(entries, outputRoot)| == 2 * |entries|
  {
    ConcatMapLength(entries, EntryRequests(outputRoot));
  }

  /** A one-entry table gives that entry's two requests. */
  lemma RedirectRequestsOfOne(entry: (string, string), outputRoot: string)
    ensures RedirectRequests([entry], outputRoot) == StubRequests(outputRoot, entry.0, entry.1)
  {
    ConcatMapOne(entry, EntryRequests(outputRoot));
  }

  /** Entry `k` of the table, and only it, accounts for requests `2k` and `2k + 1`. */
  lemma RedirectRequestsAt(entries: seq<(string, string)>, outputRoot: string, k: nat)
    requires k < |entries|
    ensures |RedirectRequests(entries, outputRoot)| == 2 * |entries|
    ensures RedirectRequests(entries, outputRoot)[2 * k..2 * k + 2] == StubRequests(outputRoot, entries[k].0, entries[k].1)
  {
    ConcatMapAt(entries, EntryRequests(outputRoot), k);
  }

  /**
   * `generate_redirects`: for each entry of `REDIRECTS` (none when the setting is
   * absent), in the table's order, create the stub's directory and write the stub.
   */
  method GenerateRedirects(redirects: Option<seq<(string, string)>>, outputRoot: string)
    returns (requests: seq<Request>)
    ensures requests == RedirectRequests(redirects.GetOr([]), outputRoot)
    ensures redirects == None ==> requests == []
  {
    var entries := redirects.GetOr([]);
    requests := [];
    for k := 0 to |entries|
      invariant requests == RedirectRequests(entries[..k], outputRoot)
    {
      var (source, destination) := entries[k];
      assert entries[..k + 1][..k] == entries[..k];
      assert EntryRequests(outputRoot)(entries[k]) == StubRequests(outputRoot, source, destination);
      requests := requests + StubRequests(outputRoot, source, destination);
    }
    assert entries[..|entries|] == entries;
  }

  // ---------------------------------------------------------------------------
  // Concrete instances

  /**
   * The example in the plugin's comment, also the first entry of the site's `REDIRECTS`
   * table: the source `/2021/07/19/expensive-imports-in-GUIs/`.
   */
  const EXAMPLE_INNER := "2021/07/19/expensive-imports-in-GUIs"
  const EXAMPLE_SOURCE := "/" + EXAMPLE_INNER + "/"

  lemma ExampleInnerHasNoEndSlashes()
    ensures NoEndSlashes(EXAMPLE_INNER)
  {
    assert |EXAMPLE_INNER| == 36;
    assert EXAMPLE_INNER[0] == '2' && EXAMPLE_INNER[35] == 's';
  }

  /** A source with slashes around a slash-free-ended path has its stub at `<path>/index.html`. */
  lemma StubOfSurrounded(inner: string)
    requires NoEndSlashes(inner) && inner != []
    ensures RelativeStubPath("/" + inner + "/") == inner + "/" + "index.html"
  {
    assert AllSlashes("/");
    StripOf("/", inner, "/");
  }

  lemma ExampleStubJoins()
    ensures EXAMPLE_INNER + "/" + "index.html" == "2021/07/19/expensive-imports-in-GUIs/index.html"
  {
  }

  lemma ExpensiveImportsStub()
    ensures RelativeStubPath(EXAMPLE_SOURCE) == "2021/07/19/expensive-imports-in-GUIs/index.html"
  {
    ExampleInnerHasNoEndSlashes();
    ExampleStubJoins();
    StubOfSurrounded(EXAMPLE_INNER);
  }

  /** A sample entry, `"/old/path/"` to `"/new-path/"`, and its source without the slashes. */
  const OLD_SOURCE := "/old/path/"
  const OLD_INNER := "old/path"

  lemma OldPathStrips()
    ensures Strip(OLD_SOURCE) == OLD_INNER
  {
    assert OLD_INNER == "o" + "ld/path";
    assert NoEndSlashes(OLD_INNER);
    assert OLD_SOURCE == "/" + OLD_INNER + "/";
    assert AllSlashes("/");
    StripOf("/", OLD_INNER, "/");
  }

  lemma OldPathStubJoins()
    ensures OLD_INNER + "/index.html" == "old/path/index.html"
  {
  }

  /**
   * The entry `"/old/path/"` (to `"/new-path/"`, or anywhere else) with an empty output
   * root: one directory `old/path`, one stub `old/path/index.html`.
   */
  lemma OldPathStub(destination: string)
    ensures StubRequests("", OLD_SOURCE, destination)
      == [MakeDirs("old/path"), WriteText("old/path/index.html", RedirectHtml(destination))]
  {
    OldPathStrips();
    StubRequestsOfStripped("", OLD_SOURCE, destination, OLD_INNER);
    OldPathStubJoins();
    JoinOntoEmpty(OLD_INNER);
    JoinOntoEmpty(OLD_INNER + "/index.html");
  }
}
