/**
 * What one run of the output plugin takes from its surroundings: the
 * staging directory, which is also the working directory while the TOC,
 * the assets and the pages are produced, and the two helpers whose source
 * is not part of this model (`unquote`, percent-decoding as in section 2.1
 * of RFC 3986, and `clean_xml_chars`), passed in as functions.
 */
module Context {
  import opened Paths

  datatype Env = Env(outputDir: Path, unquote: string -> string, cleanXmlChars: string -> string)

  predicate ValidEnv(env: Env)
  {
    ValidPath(env.outputDir)
  }

  /** `os.path.join(tempdir, 'index.html')` */
  function OutputFile(env: Env): (p: Path)
    requires ValidEnv(env)
    ensures ValidPath(p) && DirName(p) == env.outputDir && BaseName(p) == "index.html"
  {
    env.outputDir + ["index.html"]
  }

  /** `output_dir + os.sep + 'calibreHtmlOutBasicCss.css'` */
  function CssPath(env: Env): (p: Path)
    requires ValidEnv(env)
    ensures ValidPath(p) && DirName(p) == env.outputDir && BaseName(p) == "calibreHtmlOutBasicCss.css"
  {
    env.outputDir + ["calibreHtmlOutBasicCss.css"]
  }
}
