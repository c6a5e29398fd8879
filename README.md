# HTML output plugin of calibre, modelled in Dafny

This project models the core of calibre's `HTMLOutput` conversion plugin
(`src/calibre/ebooks/conversion/plugins/html_output.py`). The plugin turns an
e-book into a directory of plain HTML pages, one page per spine item, plus an
`index.html` that carries the table of contents (TOC). The project models
these parts:

- **`rename_extension_to_html`** (module `Rename`). The substitution
  `\.x(?:ht)?ml(#.*)?$` → `.html\1` is written as an explicit leftmost scan
  with Python's semantics:
  - `.` stops at a newline;
  - `$` matches at the end, or just before a final newline;
  - `http://` and `https://` references pass through unchanged.
- **Paths** (module `Paths`) on POSIX:
  - `abspath`, modelled as `normpath` of the working directory joined with the path;
  - `dirname` and `basename`;
  - the module's `relpath`.

  An absolute path is the sequence of its segments.
- **The staging context** (module `Context`): the staging directory, the
  index file, the stylesheet path, and the two helpers (`unquote` and
  `clean_xml_chars`).
- **`generate_toc` / `build_node`** (module `Toc`). The TOC tree becomes
  nested `ul`/`li`/`a` elements inside a `div`. Each link is relativised and
  renamed, and each title has its whitespace runs collapsed.
- **The clean-up of the serialised `<head>` and `<body>`** (module
  `Fragments`). These are the five `re.sub` calls of lines 176-178 and
  190-191, each written as a scan that reproduces its regular expression:
  - the wrapper lines of the head and of the body;
  - the DOTALL style block;
  - the self-closing `title` tag, with the pattern as written;
  - the self-closing `div`, `a` and `span` tags. The scan is written for both
    the pattern as written and a corrected one, which requires the tag name
    to end after the alternative. The body clean-up uses the corrected one
    (Findings row 3).
- **The anchor pass** (module `Anchors`). A spine document's anchors are held
  in an array of attribute maps, and their `href`s are renamed in place,
  between the serialisation of the head and that of the body.
- **The navigation links** (module `Navigation`). This covers each content
  page's next, previous, stylesheet, TOC and first-page links, and the index
  page's links.
- **The staging directory** (module `Staging`). Its files are a map from
  absolute path to bytes. The manifest pass writes the assets and a
  placeholder for each spine item. The spine pass writes each rendered page
  under its renamed path and removes the original. The corrected pass
  removes the original only when the renamed path differs from it
  (Findings row 1). The output path has its `.htmldir` suffix removed.

Three places in the code do something other than what the surrounding code
evidently relies on. Each is listed under "## Findings":
- Line 224 writes a page to the renamed path. Line 229 then removes the
  original path. When the renaming leaves the path alone, that removes the
  page just written.
- Lines 196 and 211 rename an item's href before making the link to it.
  Line 138 makes the index page's link without renaming, so the link points
  at the file that line 229 removes.
- Line 191 lets `a` match the start of a longer tag name such as `abbr`. It
  then closes that element with `</a>`.

For each of them the model has a member for the code as written and a
corrected member. The corrected behaviour is used by the body clean-up
(`Fragments.EbookContent`, and so `Anchors.Document.Extract`) and by the
staging directory's spine pass (`Staging.PageStep`, `Staging.StagePages`,
`Staging.StagingDir.WritePage`, `Staging.StagingDir.WritePages`). The index
links are modelled both ways: `Navigation.IndexLinksFor` as written, and
`Navigation.IndexLinksRenamed` corrected.

## Model

| member | source | states |
|---|---|---|
| Rename.FirstMatch | src/calibre/ebooks/conversion/plugins/html_output.py:23 | the position found is a match of the pattern and no earlier position matches; no result means no position matches |
| Rename.RenameExtensionToHtml | src/calibre/ebooks/conversion/plugins/html_output.py:20-23 | an absolute URL is returned unchanged; otherwise the result is the reference itself or differs from it in length by exactly one character, the change from `.xml`/`.xhtml` to `.html` |
| Rename.RenameChangesIff | src/calibre/ebooks/conversion/plugins/html_output.py:20-23 | a reference is changed exactly when it is not an `http://`/`https://` URL and the pattern matches somewhere in it |
| Rename.RenameOfExtension | src/calibre/ebooks/conversion/plugins/html_output.py:23 | `X.xml`, `X.xhtml`, `X.xml#f` and `X.xhtml#f` become `X.html` and `X.html#f`, with the fragment kept verbatim |
| Rename.RenamedStaysRelative | src/calibre/ebooks/conversion/plugins/html_output.py:21-23 | a reference that is not an absolute URL is never turned into one |
| Rename.RenameIdempotentIff | src/calibre/ebooks/conversion/plugins/html_output.py:20-23 | renaming twice gives the same as renaming once exactly when the reference is an absolute URL or the pattern matches at most one position |
| Rename.RenameOnceExample | src/calibre/ebooks/conversion/plugins/html_output.py:23 | `X.xhtml#Y.xml` is rewritten at its first extension only |
| Rename.RenameTwiceCounterexample | src/calibre/ebooks/conversion/plugins/html_output.py:23 | a second renaming rewrites the extension inside the fragment, so `X.html#Y.xml` becomes `X.html#Y.html` |
| Paths.RelPath | src/calibre/ebooks/conversion/plugins/html_output.py:16-17 | `relpath` is never empty and never absolute, and it is `.` exactly when the target is the start directory |
| Paths.RelPathResolves | src/calibre/ebooks/conversion/plugins/html_output.py:16-17 | resolving `relpath(target, start)` against `start` gives `target` back |
| Paths.RelPathToOwnDirectory | src/calibre/ebooks/conversion/plugins/html_output.py:16-17 | a file relative to its own directory is its base name |
| Paths.RelPathToDescendant | src/calibre/ebooks/conversion/plugins/html_output.py:16-17 | a path under a base directory, made relative to that base, is its remaining segments joined with `/` |
| Paths.AbsPath | src/calibre/ebooks/conversion/plugins/html_output.py:156 | `abspath` always gives a normalised absolute path: no empty, `.` or `..` segment |
| Paths.AbsPathOfPathString | src/calibre/ebooks/conversion/plugins/html_output.py:209 | `abspath` leaves an absolute normalised path unchanged |
| Paths.AbsPathOfSegment | src/calibre/ebooks/conversion/plugins/html_output.py:156 | `abspath` of a plain name is that name under the working directory |
| Paths.AbsPathUnder | src/calibre/ebooks/conversion/plugins/html_output.py:138 | `output_dir + os.sep + h` made absolute is `h` normalised under the output directory |
| Context.OutputFile | src/calibre/ebooks/conversion/plugins/html_output.py:128 | the index file is `index.html`, directly in the staging directory |
| Context.CssPath | src/calibre/ebooks/conversion/plugins/html_output.py:130 | the stylesheet is `calibreHtmlOutBasicCss.css`, directly in the staging directory |
| Toc.CollapseWhitespace | src/calibre/ebooks/conversion/plugins/html_output.py:76-77 | every whitespace character left is a space, no two whitespace characters are adjacent, and the result is empty exactly when the title is |
| Toc.CollapseWhitespaceIsEmit | src/calibre/ebooks/conversion/plugins/html_output.py:77 | the run-by-run substitution agrees with a character-by-character reference reading: the first character of each whitespace run becomes a space and the rest of the run is dropped |
| Toc.LinkFor | src/calibre/ebooks/conversion/plugins/html_output.py:68-78 | each TOC entry's link is an `a` element with exactly one attribute, `href`, and no child elements |
| Toc.ListFor | src/calibre/ebooks/conversion/plugins/html_output.py:61-66 | a node's list is a `ul` whose children are the items of the node's children |
| Toc.ItemsFor | src/calibre/ebooks/conversion/plugins/html_output.py:66-79 | there is one item per child node, in the children's order, each built from its own node |
| Toc.ItemFor | src/calibre/ebooks/conversion/plugins/html_output.py:67-79 | an item is an `li` whose first child is the node's link; it has a second child, the node's own `ul`, exactly when the node has children |
| Toc.GenerateToc | src/calibre/ebooks/conversion/plugins/html_output.py:61-83 | the result is a `div` holding one `ul`, which is empty when the root has no children |
| Toc.TocLinksInPreorder | src/calibre/ebooks/conversion/plugins/html_output.py:61-80 | the TOC's anchors are exactly the links of the non-root nodes, in pre-order, each with the node's relativised, renamed href and collapsed title |
| Toc.TocSkeleton | src/calibre/ebooks/conversion/plugins/html_output.py:61-83 | in document order: `div`, the root `ul`, then for each non-root node its `li` and `a`, and a nested `ul` exactly when the node has children |
| Toc.TocCounts | src/calibre/ebooks/conversion/plugins/html_output.py:61-83 | one `div`; one `li` and one `a` per non-root node; one `ul` plus one more per non-root node with children |
| Fragments.WrapperMatch | src/calibre/ebooks/conversion/plugins/html_output.py:176 | a match of `\<\/?head.*\>` ends with `>` and never crosses a newline |
| Fragments.StripWrapper | src/calibre/ebooks/conversion/plugins/html_output.py:176 | removing the wrapper lines never lengthens the text; its line-by-line behaviour is stated by the rows below |
| Fragments.StripByLine | src/calibre/ebooks/conversion/plugins/html_output.py:176 | the wrapper clean-up works line by line: newlines are kept, and no match spans two lines |
| Fragments.StripLineWithMatch | src/calibre/ebooks/conversion/plugins/html_output.py:176 | on a line whose first `<head`/`</head` is followed later by a `>`, exactly the text from that opener to the last `>` of the line is removed |
| Fragments.StripLineWithoutMatch | src/calibre/ebooks/conversion/plugins/html_output.py:176 | a line where no opener is followed by a `>` is kept unchanged |
| Fragments.StripElementTags | src/calibre/ebooks/conversion/plugins/html_output.py:176 | an element serialised as a start-tag line, one inner line and an end-tag line loses both tag lines and keeps the inner line and both newlines |
| Fragments.StripStyle | src/calibre/ebooks/conversion/plugins/html_output.py:177 | text without a `<style` … `/style>` span is unchanged; otherwise exactly the span from the first `<style` to the last `/style>` is removed |
| Fragments.ExpandSelfClosing | src/calibre/ebooks/conversion/plugins/html_output.py:178 | expanding the self-closing tags never shortens the text; its behaviour on each kind of input is stated by the rows below |
| Fragments.HeadContent | src/calibre/ebooks/conversion/plugins/html_output.py:176-178 | the head clean-up, with the patterns as written, leaves text without `<` unchanged |
| Fragments.EbookContent | src/calibre/ebooks/conversion/plugins/html_output.py:190-191 | the body clean-up, with the corrected self-closing pattern (Findings row 3), leaves text without `<` unchanged |
| Fragments.ExpandWithoutSlashGt | src/calibre/ebooks/conversion/plugins/html_output.py:178 | text without `/>` is unchanged by the self-closing expansion |
| Fragments.ExpandPlain | src/calibre/ebooks/conversion/plugins/html_output.py:191 | text without `<` is copied unchanged ahead of the rest |
| Fragments.SelfClosingAt | src/calibre/ebooks/conversion/plugins/html_output.py:178 | a match found is an alternative followed by the tag's first `/>` with no `>` before it, and under the corrected pattern the name ends there; no match means every alternative fails one of these |
| Fragments.NoAlternative | src/calibre/ebooks/conversion/plugins/html_output.py:191 | when every alternative fails, the pattern does not match, which is the converse of `SelfClosingAt`'s no-match clause |
| Fragments.ExpandTag | src/calibre/ebooks/conversion/plugins/html_output.py:191 | `<n attrs/>` becomes `<n attrs></n>` when `n` is the only alternative that starts the tag; under the corrected pattern `attrs` must also be empty or start with whitespace |
| Fragments.EbookContentOfSingleDiv | src/calibre/ebooks/conversion/plugins/html_output.py:188-191 | a body made of a start tag, one self-closing `div` and an end tag becomes the `div` as an open/close pair between two newlines; under the corrected pattern this holds when the attributes are empty or start with whitespace |
| Fragments.NameStartingWithA | src/calibre/ebooks/conversion/plugins/html_output.py:191 | as written, an alternative only has to start the tag name, so `<abbr/>` and `<aside/>` are closed with `</a>` |
| Fragments.LongerNameKept | src/calibre/ebooks/conversion/plugins/html_output.py:191 | under the corrected pattern, a self-closing tag whose name only starts with `a` is kept as it is |
| Anchors.Rewritten | src/calibre/ebooks/conversion/plugins/html_output.py:183-185 | an anchor keeps its attribute names; its `href`, if present, is renamed, and every other attribute is untouched |
| Anchors.RewriteAll | src/calibre/ebooks/conversion/plugins/html_output.py:181-185 | every anchor of the document is rewritten, in order, and no anchor is added or lost |
| Anchors.RewriteTwiceIff | src/calibre/ebooks/conversion/plugins/html_output.py:181-185 | running the pass twice leaves the anchors as one pass does exactly when every `href` is absolute or has at most one match |
| Anchors.Document.RewriteLinks | src/calibre/ebooks/conversion/plugins/html_output.py:181-185 | the in-place loop leaves the anchor array equal to the rewrite of its old contents |
| Anchors.Document.Extract | src/calibre/ebooks/conversion/plugins/html_output.py:174-191 | the head text is computed from the anchors before the pass and the body text from the anchors after it, and the anchors are left renamed; the body's self-closing tags are expanded with the corrected pattern (Findings row 3) |
| Navigation.PageLinksFor | src/calibre/ebooks/conversion/plugins/html_output.py:193-211 | there is a next link exactly when a following item exists, and a previous link exactly when a preceding one does; each of them, and the stylesheet and TOC links, resolves from the page's directory to its target; the first-page link is the first item renamed |
| Navigation.NextLinkInSameDirectory | src/calibre/ebooks/conversion/plugins/html_output.py:194-197 | for pages that are plain names in the staging directory, the next link is the following item's renamed name |
| Navigation.IndexLinksFor | src/calibre/ebooks/conversion/plugins/html_output.py:136-144 | the index's next link resolves to the first spine item without renaming, the first-page link equals it, and the stylesheet and TOC links are plain names |
| Navigation.IndexTargetIsAbsPath | src/calibre/ebooks/conversion/plugins/html_output.py:138 | a relative href joined onto the output directory resolves as `abspath` would resolve it |
| Navigation.IndexNextLinkOfHref | src/calibre/ebooks/conversion/plugins/html_output.py:137-138 | as written, a relative href of plain segments is linked from the index unchanged |
| Navigation.IndexNextLinkOfName | src/calibre/ebooks/conversion/plugins/html_output.py:137-138 | a first item whose href is a relative path of plain segments (such as `Text/ch1.xhtml`) is linked from the index by that very href |
| Navigation.IndexLinksRenamed | src/calibre/ebooks/conversion/plugins/html_output.py:137-138 | the corrected index links: the next link resolves to the renamed first item |
| Navigation.IndexRenamedAgreesWithPages | src/calibre/ebooks/conversion/plugins/html_output.py:137-138 | corrected (Findings row 2): for any first item whose renamed href is a relative path of plain segments (such as `Text/ch1.html`), the index's next link equals the first-page link that every content page carries |
| Navigation.IndexNextLinkKeepsExtension | src/calibre/ebooks/conversion/plugins/html_output.py:137-138 | as written, for a first item `X.xhtml` the index links to `X.xhtml`, while the pages link to `X.html` |
| Navigation.RenameOfName | src/calibre/ebooks/conversion/plugins/html_output.py:20-23 | a name `X.xhtml` without `/` or `#` is renamed to `X.html`, and both are plain segments |
| Staging.StageManifest | src/calibre/ebooks/conversion/plugins/html_output.py:155-166 | after the manifest pass, the files are the old ones plus one per manifest item's path |
| Staging.ManifestLastWriteWins | src/calibre/ebooks/conversion/plugins/html_output.py:160-165 | an item's path holds the empty placeholder for a spine item, or else the item's bytes, unless a later item writes the same path |
| Staging.ManifestKeepsOthers | src/calibre/ebooks/conversion/plugins/html_output.py:155-166 | a file that no manifest item names is left as it was |
| Staging.StagingDir.WriteManifest | src/calibre/ebooks/conversion/plugins/html_output.py:155-166 | the loop leaves the staging directory as the manifest pass specifies |
| Staging.StagingDir.WritePage | src/calibre/ebooks/conversion/plugins/html_output.py:224-229 | corrected (Findings row 1): one page is written as `Staging.PageStep` specifies |
| Staging.PageStep | src/calibre/ebooks/conversion/plugins/html_output.py:224-229 | corrected (Findings row 1): the page is stored under its renamed path; the original path is removed only when it differs from the renamed one; every other file is untouched |
| Staging.PageStepAsWritten | src/calibre/ebooks/conversion/plugins/html_output.py:224-229 | as written: the original path is always gone afterwards; the renamed path holds the page when it differs from the original; every other file is untouched |
| Staging.StagePagesAsWritten | src/calibre/ebooks/conversion/plugins/html_output.py:168-229 | as written: a file that is no page's target is an old file with its old bytes, and an old file that is no page's original survives |
| Staging.StagePages | src/calibre/ebooks/conversion/plugins/html_output.py:168-229 | corrected (Findings row 1): a file that is no page's target is an old file with its old bytes, and an old file that is no page's original survives |
| Staging.PagesWritten | src/calibre/ebooks/conversion/plugins/html_output.py:168-229 | after the spine pass, every page sits under its renamed path, provided no two pages collide |
| Staging.OriginalsRemoved | src/calibre/ebooks/conversion/plugins/html_output.py:228-229 | corrected (Findings row 1): after the spine pass, every original whose path the renaming changed is gone, provided no two pages collide |
| Staging.StagingDir.WritePages | src/calibre/ebooks/conversion/plugins/html_output.py:168-229 | corrected (Findings row 1): the loop leaves the staging directory as the corrected spine pass specifies |
| Staging.PageLostAsWritten | src/calibre/ebooks/conversion/plugins/html_output.py:224-229 | as written, a page whose path the renaming leaves alone is written and then removed |
| Staging.HtmlPathUnchanged | src/calibre/ebooks/conversion/plugins/html_output.py:23 | a path ending in `.html`, with no `#` and no newline, is not changed by the renaming |
| Staging.OutputDirectory | src/calibre/ebooks/conversion/plugins/html_output.py:232-234 | there is a result exactly when the output path ends with `.htmldir`, and the result plus `.htmldir` is the output path |

## Left out

- Reading the templates and the stylesheet, and rendering the templates (lines 99-120, 131-132, 141-147 and 213-225), are not modelled. A rendered page enters the staging model as bytes.
- The book's metadata (`EasyMeta`) and writing `metadata.json` (lines 124 and 149-152) are not modelled.
- The temporary directory (line 126) is a parameter: the staging directory, taken to be an absolute, normalised path.
- `unquote` (percent-decoding, section 2.1 of RFC 3986) and `clean_xml_chars` are parameters, because their source is not part of this model.
- Parsing the spine documents, the XPath queries, and lxml's serialisation (lines 171-175, 181 and 188-189) are not modelled:
  - the serialisation enters as a function of the anchors an element contains;
  - the model starts from the serialised text.
- The `IndexError` raised when a document has no `<head>` or `<body>` (lines 174 and 188) is not modelled, because the model starts from the serialised text.
- The `bytes` branches (lines 69-70 and 74-75) are not modelled: titles and hrefs are strings.
- Creating directories (lines 157-159) and unloading item data (lines 166 and 226) are not modelled. Neither changes the set of files or their contents.
- The move into the final directory and the removal of the temporary directory (lines 236-245) are not modelled. That part is file-system library behaviour.
- `has_toc`, `toc.count()` (line 141) and the deferred `toc` callable passed to each page template (line 215) are not modelled: they are template inputs.
- The pretty-printed serialisation of the TOC (lines 89-90) is not modelled. The TOC is modelled as an element tree.
- Paths are POSIX only, so `os.sep` is `/`. `normpath` keeps a leading `//`; the model has no such case.
- Navigation.IndexLinksFor: an empty spine gives no links, where the code raises `IndexError` at line 137.
- Staging.OutputDirectory: a missing `.htmldir` suffix gives no result, where the code fails its `assert` at line 232.
- Staging.PagesWritten: this is stated only for spines whose pages do not overwrite one another's original or renamed files.
- Staging.OriginalsRemoved: this is stated only for spines whose pages do not overwrite one another's original or renamed files.
- Navigation.IndexRenamedAgreesWithPages and Navigation.IndexNextLinkOfName: these are stated for first items whose href is a relative path of plain segments, not for hrefs with `.`, `..` or empty segments.
- Fragments.StripStyle: the contract states the removed span, but it does not restate that no `/style>` remains after it.
- Fragments.StripWrapper and Fragments.ExpandSelfClosing: these are characterised by the lemmas in the table, as listed below, not by a closed formula.
  - StripWrapper: line by line, a line with a match, a line without one, and a whole element.
  - ExpandSelfClosing: text without `/>`, text without `<`, a single tag, a body with one `div`, and a tag whose name only starts with an alternative.

## Findings

| source | as written | input that shows it | evidently intended | confidence | as-written member | corrected member |
|---|---|---|---|---|---|---|
| src/calibre/ebooks/conversion/plugins/html_output.py:224-229 | the page is written to `rename_extension_to_html(path)`, then `path` is removed unconditionally | a spine item whose href already ends in `.html`, such as `/book/ch1.html`: the renaming leaves the path alone, so the page just written is deleted | remove the original only when the renamed path differs from it | high, not executed | Staging.PageLostAsWritten | Staging.PagesWritten |
| src/calibre/ebooks/conversion/plugins/html_output.py:137-138 | the index page's next link and first-page link are the first spine item made relative, without renaming | a first spine item `ch1.xhtml`: the index links to `ch1.xhtml`, but that file is written as `ch1.html` and the original is removed | rename before making the link relative, as lines 196 and 211 do for the content pages | medium, not executed | Navigation.IndexNextLinkKeepsExtension | Navigation.IndexRenamedAgreesWithPages |
| src/calibre/ebooks/conversion/plugins/html_output.py:191 | `<(div\|a\|span)([^>]*)/>` becomes `<\1\2></\1>`, where the alternative only has to start the tag name | a self-closing `<abbr/>` in the body: `a` matches, `bbr` is taken as attributes, and the result is `<abbr></a>`, whose end tag does not close the element | require the name to end after the alternative, as `<(div\|a\|span)([ \t\n\r][^>]*)?/>` does, with the whitespace characters of XML's `S` production | medium, not executed | Fragments.NameStartingWithA | Fragments.LongerNameKept |
