/**
 * The effects the plugins ask of the outside world, as values: rendering a page
 * through the site writer, creating a directory, writing a text file.
 */
module Output {
  import opened Content

  datatype Request =
    /** `writer.write_file(path, template, context, article=…, category=…, blog=…)`. */
    | RenderPage(path: string, template: string, article: Article, category: string, blog: bool)
    /** `os.makedirs(dir, exist_ok=True)`. */
    | MakeDirs(dir: string)
    /** Opening `path` for writing and writing `contents` to it. */
    | WriteText(path: string, contents: string)
}
