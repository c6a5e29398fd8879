/**
 * The links handed to the templates: for each spine page its neighbours,
 * the stylesheet, the index and the first content page; for the index page
 * the first spine item, the stylesheet and the index itself.
 *
 * A spine is the sequence of its items' hrefs, relative to the staging
 * directory.  Content-page links are computed with the staging directory as
 * working directory, so `abspath(x)` is `AbsPath(env.outputDir, x)`.
 */
module Navigation {
  import opened Wrappers
  import opened Paths
  import opened Rename
  import opened Context

  datatype PageLinks = PageLinks(
    nextLink: Option<string>,
    prevLink: Option<string>,
    cssLink: string,
    tocUrl: string,
    firstContentPageLink: string)

  /** `dirname(abspath(unquote(href)))`: the directory the page's own file lies in. */
  function PageDir(env: Env, href: string): (d: Path)
    requires ValidEnv(env)
    ensures ValidPath(d)
  {
    DirName(AbsPath(env.outputDir, env.unquote(href)))
  }

  /** `abspath(rename_extension_to_html(href))`: where a neighbour link points (no `unquote`). */
  function NeighbourTarget(env: Env, href: string): (p: Path)
    requires ValidEnv(env)
    ensures ValidPath(p)
  {
    AbsPath(env.outputDir, RenameExtensionToHtml(href))
  }

  /**
   * The links for the page at position `pos` of the spine: a next link only
   * when there is a following item, a previous link only when there is a
   * preceding one, each relative to the page's own directory and resolving
   * to the renamed neighbour; the first content page is `spine[0]` renamed
   * but not made relative.
   */
  function PageLinksFor(env: Env, spine: seq<string>, pos: nat): (r: PageLinks)
    requires ValidEnv(env) && pos < |spine|
    ensures r.nextLink.Some? <==> pos + 1 < |spine|
    ensures r.prevLink.Some? <==> pos > 0
    ensures pos + 1 < |spine| ==>
      AbsPath(PageDir(env, spine[pos]), r.nextLink.value) == NeighbourTarget(env, spine[pos + 1])
    ensures pos > 0 ==>
      AbsPath(PageDir(env, spine[pos]), r.prevLink.value) == NeighbourTarget(env, spine[pos - 1])
    ensures AbsPath(PageDir(env, spine[pos]), r.cssLink) == CssPath(env)
    ensures AbsPath(PageDir(env, spine[pos]), r.tocUrl) == OutputFile(env)
    ensures r.firstContentPageLink == RenameExtensionToHtml(spine[0])
  {
    var dir := PageDir(env, spine[pos]);
    var next :=
      if pos + 1 < |spine| then
        RelPathResolves(NeighbourTarget(env, spine[pos + 1]), dir);
        Some(RelPath(NeighbourTarget(env, spine[pos + 1]), dir))
      else None;
    var prev :=
      if pos > 0 then
        RelPathResolves(NeighbourTarget(env, spine[pos - 1]), dir);
        Some(RelPath(NeighbourTarget(env, spine[pos - 1]), dir))
      else None;
    RelPathResolves(CssPath(env), dir);
    RelPathResolves(OutputFile(env), dir);
    PageLinks(next, prev, RelPath(CssPath(env), dir), RelPath(OutputFile(env), dir),
              RenameExtensionToHtml(spine[0]))
  }

  /**
   * For a page and a following item that are plain names in the staging
   * directory itself, the next link is just the renamed name of that item.
   */
  lemma NextLinkInSameDirectory(env: Env, spine: seq<string>, pos: nat)
    requires ValidEnv(env) && pos + 1 < |spine|
    requires ValidSegment(env.unquote(spine[pos])) && ValidSegment(RenameExtensionToHtml(spine[pos + 1]))
    ensures PageLinksFor(env, spine, pos).nextLink == Some(RenameExtensionToHtml(spine[pos + 1]))
  {
    var next := RenameExtensionToHtml(spine[pos + 1]);
    AbsPathOfSegment(env.outputDir, env.unquote(spine[pos]));
    AbsPathOfSegment(env.outputDir, next);
    RelPathToOwnDirectory(env.outputDir + [next]);
  }

  datatype IndexLinks = IndexLinks(
    nextLink: string,
    cssLink: string,
    tocUrl: string,
    firstContentPageLink: string)

  /** `output_dir + os.sep + href`, made absolute. */
  function IndexTarget(env: Env, href: string): (p: Path)
    requires ValidEnv(env)
    ensures ValidPath(p)
  {
    AbsPath(env.outputDir, PathString(env.outputDir) + "/" + href)
  }

  /**
   * The index page's links, as written: the next link (which is also the
   * first content page link) is `spine[0]` made relative to the staging
   * directory WITHOUT renaming its extension.  An empty spine has no first
   * item to index, so there are no links.
   */
  function IndexLinksFor(env: Env, spine: seq<string>): (r: Option<IndexLinks>)
    requires ValidEnv(env)
    ensures r.None? <==> spine == []
    ensures r.Some? ==> AbsPath(env.outputDir, r.value.nextLink) == IndexTarget(env, spine[0])
    ensures r.Some? ==> r.value.firstContentPageLink == r.value.nextLink
    ensures r.Some? ==> r.value.cssLink == "calibreHtmlOutBasicCss.css" && r.value.tocUrl == "index.html"
  {
    if spine == [] then None
    else
      var next := RelPath(IndexTarget(env, spine[0]), DirName(OutputFile(env)));
      RelPathResolves(IndexTarget(env, spine[0]), env.outputDir);
      RelPathToOwnDirectory(CssPath(env));
      RelPathToOwnDirectory(OutputFile(env));
      Some(IndexLinks(next, RelPath(CssPath(env), DirName(OutputFile(env))),
                      RelPath(OutputFile(env), DirName(OutputFile(env))), next))
  }

  /** The index's target for a relative href is where `abspath` in the staging directory puts it. */
  lemma IndexTargetIsAbsPath(env: Env, href: string)
    requires ValidEnv(env) && (href == [] || href[0] != '/')
    ensures IndexTarget(env, href) == AbsPath(env.outputDir, href)
  {
    AbsPathUnder(env.outputDir, env.outputDir, href);
  }

  /**
   * The index page's links with the extension renamed before the link is
   * made relative, as every content page already does for its own links:
   * the index links of the spine whose first item is renamed.
   */
  function IndexLinksRenamed(env: Env, spine: seq<string>): (r: Option<IndexLinks>)
    requires ValidEnv(env)
    ensures r.None? <==> spine == []
    ensures r.Some? ==>
      AbsPath(env.outputDir, r.value.nextLink) == IndexTarget(env, RenameExtensionToHtml(spine[0]))
    ensures r.Some? ==> r.value.firstContentPageLink == r.value.nextLink
    ensures r.Some? ==> r.value.cssLink == "calibreHtmlOutBasicCss.css" && r.value.tocUrl == "index.html"
  {
    if spine == [] then None
    else IndexLinksFor(env, [RenameExtensionToHtml(spine[0])] + spine[1..])
  }

  /** A relative first item is linked from the index by its own href, whatever directories it names. */
  lemma IndexNextLinkOfHref(env: Env, h: string)
    requires ValidEnv(env) && ValidPath(Split(h))
    ensures IndexLinksFor(env, [h]).value.nextLink == h
  {
    var segs := Split(h);
    assert ValidSegment(segs[0]);
    assert h != [] && h[0] != '/';
    IndexTargetIsAbsPath(env, h);
    NormalizeValid(env.outputDir, segs);
    RelPathToDescendant(env.outputDir, segs);
  }

  /**
   * The index's next link depends only on the first item, and a first item
   * that is a relative path of plain segments (`ch1.xhtml`, `Text/ch1.xhtml`)
   * is linked by that very href, unrenamed.
   */
  lemma IndexNextLinkOfName(env: Env, spine: seq<string>)
    requires ValidEnv(env) && spine != [] && ValidPath(Split(spine[0]))
    ensures IndexLinksFor(env, spine).value.nextLink == spine[0]
  {
    IndexNextLinkOfHref(env, spine[0]);
  }

  /**
   * With the renaming, the index's next link agrees with the first content
   * page link every content page carries, for any first item whose renamed
   * href is a relative path of plain segments.
   */
  lemma IndexRenamedAgreesWithPages(env: Env, spine: seq<string>, pos: nat)
    requires ValidEnv(env) && pos < |spine| && ValidPath(Split(RenameExtensionToHtml(spine[0])))
    ensures IndexLinksRenamed(env, spine).value.nextLink == PageLinksFor(env, spine, pos).firstContentPageLink
  {
    var h := RenameExtensionToHtml(spine[0]);
    IndexNextLinkOfHref(env, h);
    assert ([h] + spine[1..])[0] == [h][0];
  }

  /**
   * As written, a book whose first item is `X.xhtml` gets an index page whose
   * next link is `X.xhtml`, while the page itself is written as `X.html` and
   * every content page links to `X.html` as the first content page.
   */
  lemma IndexNextLinkKeepsExtension(env: Env, x: string, rest: seq<string>)
    requires ValidEnv(env) && '/' !in x && '#' !in x
    ensures IndexLinksFor(env, [x + ".xhtml"] + rest).value.nextLink == x + ".xhtml"
    ensures PageLinksFor(env, [x + ".xhtml"] + rest, 0).firstContentPageLink == x + ".html"
    ensures IndexLinksRenamed(env, [x + ".xhtml"] + rest).value.nextLink == x + ".html"
  {
    var spine := [x + ".xhtml"] + rest;
    assert spine[0] == x + ".xhtml";
    RenameOfName(x);
    SplitWithoutSlash(x + ".xhtml");
    SplitWithoutSlash(x + ".html");
    IndexNextLinkOfName(env, spine);
    IndexRenamedAgreesWithPages(env, spine, 0);
  }

  /** A name `X.xhtml` without `/` or `#` is a plain segment, and renaming makes it `X.html`. */
  lemma RenameOfName(x: string)
    requires '/' !in x && '#' !in x
    ensures RenameExtensionToHtml(x + ".xhtml") == x + ".html"
    ensures ValidSegment(x + ".xhtml") && ValidSegment(x + ".html")
  {
    var s := x + ".xhtml";
    NameWithSuffix(x, ".xhtml");
    NameWithSuffix(x, ".html");
    NoSlashNotUrl(s);
    assert s + "" == s && x + ".html" + "" == x + ".html";
    RenameOfExtension(x, ".xhtml", "");
  }

  /** A name without `/` followed by a suffix starting with `.` and ending in `l` is a plain segment without `/`. */
  lemma NameWithSuffix(x: string, suffix: string)
    requires '/' !in x && '/' !in suffix && |suffix| >= 2 && suffix[0] == '.' && suffix[|suffix| - 1] == 'l'
    ensures '/' !in x + suffix && ValidSegment(x + suffix)
  {
    var h := x + suffix;
    assert h[|h| - 1] == 'l';
  }

  /** A reference without `/` is not an `http://` or `https://` URL. */
  lemma NoSlashNotUrl(s: string)
    requires '/' !in s
    ensures !IsAbsoluteUrl(s)
  {
    if |s| >= 8 { assert s[..8][6] == s[6]; }
    if |s| >= 7 { assert s[..7][6] == s[6]; }
  }
}
