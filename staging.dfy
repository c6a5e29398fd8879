/**
 * The staging directory as a map from absolute path strings to file
 * contents, and the steps of a run that change it: the manifest pass, which
 * writes every asset and an empty placeholder for every spine item, and the
 * spine pass, which writes each rendered page under its renamed path and
 * removes the original file: always as written, and only when the renamed
 * path differs from it in the corrected pass.  Creating directories, the
 * metadata file and the final move out of the staging directory are not
 * modelled.
 */
module Staging {
  import opened Wrappers
  import opened Paths
  import opened Rename
  import opened Context

  type Bytes = seq<bv8>

  datatype ManifestItem = ManifestItem(href: string, inSpine: bool, data: Bytes)

  /** `abspath(unquote(href))` in the staging directory, as a string. */
  function FilePath(env: Env, href: string): string
    requires ValidEnv(env)
  {
    PathString(AbsPath(env.outputDir, env.unquote(href)))
  }

  /** What the manifest pass writes for an item: nothing yet for a spine item, its bytes otherwise. */
  function Placeholder(item: ManifestItem): Bytes
  {
    if item.inSpine then [] else item.data
  }

  /** The files after the manifest pass has handled `items`, in order. */
  function StageManifest(env: Env, files: map<string, Bytes>, items: seq<ManifestItem>): (r: map<string, Bytes>)
    requires ValidEnv(env)
    ensures forall p :: p in r <==> p in files || exists i :: 0 <= i < |items| && FilePath(env, items[i].href) == p
    decreases |items|
  {
    if items == [] then files
    else
      var last := items[|items| - 1];
      var before := StageManifest(env, files, items[..|items| - 1]);
      assert forall i :: 0 <= i < |items| - 1 ==> items[..|items| - 1][i] == items[i];
      before[FilePath(env, last.href) := Placeholder(last)]
  }

  /** The last item written to a path decides its contents. */
  lemma {:induction false} ManifestLastWriteWins(env: Env, files: map<string, Bytes>, items: seq<ManifestItem>, i: nat)
    requires ValidEnv(env) && i < |items|
    requires forall j :: i < j < |items| ==> FilePath(env, items[j].href) != FilePath(env, items[i].href)
    ensures StageManifest(env, files, items)[FilePath(env, items[i].href)] == Placeholder(items[i])
    decreases |items|
  {
    if i < |items| - 1 {
      var init := items[..|items| - 1];
      assert init[i] == items[i];
      ManifestLastWriteWins(env, files, init, i);
    }
  }

  /** A file no manifest item names is left as it was. */
  lemma {:induction false} ManifestKeepsOthers(env: Env, files: map<string, Bytes>, items: seq<ManifestItem>, p: string)
    requires ValidEnv(env) && p in files
    requires forall i :: 0 <= i < |items| ==> FilePath(env, items[i].href) != p
    ensures StageManifest(env, files, items)[p] == files[p]
    decreases |items|
  {
    if items != [] {
      var init := items[..|items| - 1];
      assert forall i :: 0 <= i < |init| ==> init[i] == items[i];
      ManifestKeepsOthers(env, files, init, p);
    }
  }

  /** Lines 224 to 229 as written: write the page under the renamed path, then remove the original path. */
  function PageStepAsWritten(files: map<string, Bytes>, path: string, page: Bytes): (r: map<string, Bytes>)
    ensures path !in r
    ensures forall p :: p in r <==> p != path && (p == RenameExtensionToHtml(path) || p in files)
    ensures RenameExtensionToHtml(path) != path ==> r[RenameExtensionToHtml(path)] == page
    ensures forall p :: p in r && p != RenameExtensionToHtml(path) ==> r[p] == files[p]
  {
    files[RenameExtensionToHtml(path) := page] - {path}
  }

  /** The page step with the original removed only when the page went to another path. */
  function PageStep(files: map<string, Bytes>, path: string, page: Bytes): (r: map<string, Bytes>)
    ensures RenameExtensionToHtml(path) in r && r[RenameExtensionToHtml(path)] == page
    ensures forall p :: p in r <==>
      p == RenameExtensionToHtml(path) || (p in files && p != path)
    ensures forall p :: p in r && p != RenameExtensionToHtml(path) ==> r[p] == files[p]
  {
    var target := RenameExtensionToHtml(path);
    if target != path then files[target := page] - {path} else files[target := page]
  }

  /** The files after the spine pass (as written) has handled the first `|pages|` spine items. */
  function StagePagesAsWritten(env: Env, files: map<string, Bytes>, spine: seq<string>, pages: seq<Bytes>): (r: map<string, Bytes>)
    requires ValidEnv(env) && |pages| == |spine|
    ensures forall p :: p in r && (forall i :: 0 <= i < |spine| ==> p != Target(env, spine[i])) ==> p in files && r[p] == files[p]
    ensures forall p :: p in files && (forall i :: 0 <= i < |spine| ==> p != FilePath(env, spine[i])) ==> p in r
    decreases |spine|
  {
    if spine == [] then files
    else
      assert forall i :: 0 <= i < |spine| - 1 ==> spine[..|spine| - 1][i] == spine[i];
      PageStepAsWritten(StagePagesAsWritten(env, files, spine[..|spine| - 1], pages[..|pages| - 1]),
                           FilePath(env, spine[|spine| - 1]), pages[|pages| - 1])
  }

  /** The files after the (corrected) spine pass. */
  function StagePages(env: Env, files: map<string, Bytes>, spine: seq<string>, pages: seq<Bytes>): (r: map<string, Bytes>)
    requires ValidEnv(env) && |pages| == |spine|
    ensures forall p :: p in r && (forall i :: 0 <= i < |spine| ==> p != Target(env, spine[i])) ==> p in files && r[p] == files[p]
    ensures forall p :: p in files && (forall i :: 0 <= i < |spine| ==> p != FilePath(env, spine[i])) ==> p in r
    decreases |spine|
  {
    if spine == [] then files
    else
      assert forall i :: 0 <= i < |spine| - 1 ==> spine[..|spine| - 1][i] == spine[i];
      PageStep(StagePages(env, files, spine[..|spine| - 1], pages[..|pages| - 1]),
                  FilePath(env, spine[|spine| - 1]), pages[|pages| - 1])
  }

  /** Where the page of spine item `href` is written. */
  function Target(env: Env, href: string): string
    requires ValidEnv(env)
  {
    RenameExtensionToHtml(FilePath(env, href))
  }

  /** No spine item's page is written over another item's original or renamed file. */
  predicate DistinctPages(env: Env, spine: seq<string>)
    requires ValidEnv(env)
  {
    forall i, j :: 0 <= i < |spine| && 0 <= j < |spine| && i != j ==>
      Target(env, spine[i]) != FilePath(env, spine[j]) && Target(env, spine[i]) != Target(env, spine[j])
  }

  /** A page step leaves a file it neither writes nor removes as it was. */
  lemma PageStepKeeps(files: map<string, Bytes>, path: string, page: Bytes, q: string)
    requires q in files && q != RenameExtensionToHtml(path) && q != path
    ensures q in PageStep(files, path, page) && PageStep(files, path, page)[q] == files[q]
  {
  }

  /** A page step brings back no removed file except the one it writes. */
  lemma PageStepNoRevive(files: map<string, Bytes>, path: string, page: Bytes, q: string)
    requires q !in files && q != RenameExtensionToHtml(path)
    ensures q !in PageStep(files, path, page)
  {
  }

  /** A prefix of a spine without colliding pages has none either. */
  lemma DistinctPrefix(env: Env, spine: seq<string>, n: nat)
    requires ValidEnv(env) && n <= |spine| && DistinctPages(env, spine)
    ensures DistinctPages(env, spine[..n])
  {
    assert forall i :: 0 <= i < n ==> spine[..n][i] == spine[i];
  }

  /** The spine pass is the pass over all items but the last, then the last item's page step. */
  lemma StagePagesLast(env: Env, files: map<string, Bytes>, spine: seq<string>, pages: seq<Bytes>)
    requires ValidEnv(env) && |pages| == |spine| && spine != []
    ensures StagePages(env, files, spine, pages)
         == PageStep(StagePages(env, files, spine[..|spine| - 1], pages[..|spine| - 1]),
                     FilePath(env, spine[|spine| - 1]), pages[|spine| - 1])
  {
  }

  /** Handling one more spine item is one more page step. */
  lemma StagePagesNext(env: Env, files: map<string, Bytes>, spine: seq<string>, pages: seq<Bytes>, i: nat)
    requires ValidEnv(env) && |pages| == |spine| && i < |spine|
    ensures StagePages(env, files, spine[..i + 1], pages[..i + 1])
         == PageStep(StagePages(env, files, spine[..i], pages[..i]), FilePath(env, spine[i]), pages[i])
  {
    assert spine[..i + 1][..i] == spine[..i] && pages[..i + 1][..i] == pages[..i];
    StagePagesLast(env, files, spine[..i + 1], pages[..i + 1]);
  }

  /** After the spine pass every page sits under its renamed path. */
  lemma {:induction false} PagesWritten(env: Env, files: map<string, Bytes>, spine: seq<string>, pages: seq<Bytes>)
    requires ValidEnv(env) && |pages| == |spine| && DistinctPages(env, spine)
    ensures forall i :: 0 <= i < |spine| ==>
      Target(env, spine[i]) in StagePages(env, files, spine, pages)
      && StagePages(env, files, spine, pages)[Target(env, spine[i])] == pages[i]
    decreases |spine|
  {
    if spine != [] {
      var n := |spine| - 1;
      var init, initPages := spine[..n], pages[..n];
      DistinctPrefix(env, spine, n);
      PagesWritten(env, files, init, initPages);
      var prev := StagePages(env, files, init, initPages);
      var path := FilePath(env, spine[n]);
      StagePagesLast(env, files, spine, pages);
      forall i | 0 <= i < n
        ensures Target(env, spine[i]) in PageStep(prev, path, pages[n])
        ensures PageStep(prev, path, pages[n])[Target(env, spine[i])] == pages[i]
      {
        assert init[i] == spine[i] && initPages[i] == pages[i];
        PageStepKeeps(prev, path, pages[n], Target(env, spine[i]));
      }
    }
  }

  /** After the spine pass every original whose path the renaming changed is gone. */
  lemma {:induction false} OriginalsRemoved(env: Env, files: map<string, Bytes>, spine: seq<string>, pages: seq<Bytes>)
    requires ValidEnv(env) && |pages| == |spine| && DistinctPages(env, spine)
    ensures forall i :: 0 <= i < |spine| && Target(env, spine[i]) != FilePath(env, spine[i]) ==>
      FilePath(env, spine[i]) !in StagePages(env, files, spine, pages)
    decreases |spine|
  {
    if spine != [] {
      var n := |spine| - 1;
      var init, initPages := spine[..n], pages[..n];
      DistinctPrefix(env, spine, n);
      OriginalsRemoved(env, files, init, initPages);
      var prev := StagePages(env, files, init, initPages);
      var path := FilePath(env, spine[n]);
      StagePagesLast(env, files, spine, pages);
      forall i | 0 <= i < n && Target(env, spine[i]) != FilePath(env, spine[i])
        ensures FilePath(env, spine[i]) !in PageStep(prev, path, pages[n])
      {
        assert init[i] == spine[i];
        PageStepNoRevive(prev, path, pages[n], FilePath(env, spine[i]));
      }
    }
  }

  /**
   * As written, a spine item whose path the renaming leaves alone (an href
   * that already ends in `.html`, say) has its page written and then removed.
   */
  lemma PageLostAsWritten(env: Env, files: map<string, Bytes>, href: string, page: Bytes)
    requires ValidEnv(env) && RenameExtensionToHtml(FilePath(env, href)) == FilePath(env, href)
    ensures FilePath(env, href) !in StagePagesAsWritten(env, files, [href], [page])
    ensures StagePages(env, files, [href], [page])[FilePath(env, href)] == page
  {
    assert [href][..0] == [] && [page][..0] == [];
  }

  /** A path ending in `.html`, with no `#` and no newline, is left alone by the renaming. */
  lemma HtmlPathUnchanged(x: string)
    requires '#' !in x && '\n' !in x
    ensures RenameExtensionToHtml(x + ".html") == x + ".html"
  {
    var s := x + ".html";
    forall i: nat | i <= |s| ensures !MatchAt(s, i) {
      if i + 4 == |s| {
        assert s[i + 1] == 't';
      } else if i + 6 == |s| {
        assert s[i + 1] == '.';
      } else if ExtAt(s, i) != 0 {
        var t := s[i + ExtAt(s, i)..];
        assert t[0] == s[i + ExtAt(s, i)];
        assert t != "\n";
      }
    }
    RenameChangesIff(s);
  }

  /** `output_path[:-len('.htmldir')]` after asserting the suffix; no result when the suffix is missing. */
  function OutputDirectory(outputPath: string): (r: Option<string>)
    ensures r.Some? <==> |outputPath| >= 8 && outputPath[|outputPath| - 8..] == ".htmldir"
    ensures r.Some? ==> r.value + ".htmldir" == outputPath
  {
    if |outputPath| >= 8 && outputPath[|outputPath| - 8..] == ".htmldir" then
      assert outputPath[..|outputPath| - 8] + ".htmldir" == outputPath;
      Some(outputPath[..|outputPath| - 8])
    else None
  }

  /** The staging directory of one run. */
  class StagingDir {
    var files: map<string, Bytes>

    constructor ()
      ensures files == map[]
    {
      files := map[];
    }

    /** Lines 155 to 166: every manifest item written, in manifest order. */
    method WriteManifest(env: Env, items: seq<ManifestItem>)
      requires ValidEnv(env)
      modifies this
      ensures files == StageManifest(env, old(files), items)
    {
      var i := 0;
      while i < |items|
        invariant 0 <= i <= |items|
        invariant files == StageManifest(env, old(files), items[..i])
      {
        assert items[..i + 1][..i] == items[..i];
        files := files[FilePath(env, items[i].href) := Placeholder(items[i])];
        i := i + 1;
      }
      assert items[..|items|] == items;
    }

    /**
     * Lines 224 to 229 for one spine item, corrected: the page is written
     * under the renamed path, and the original is removed only when that
     * path differs.
     */
    method WritePage(env: Env, href: string, page: Bytes)
      requires ValidEnv(env)
      modifies this
      ensures files == PageStep(old(files), FilePath(env, href), page)
    {
      var path := FilePath(env, href);
      var target := RenameExtensionToHtml(path);
      files := files[target := page];
      if target != path {
        files := files - {path};
      }
    }

    /**
     * Lines 168 to 229, corrected: each rendered page is written under its
     * renamed path, and the original is removed only when that path differs.
     */
    method WritePages(env: Env, spine: seq<string>, pages: seq<Bytes>)
      requires ValidEnv(env) && |pages| == |spine|
      modifies this
      ensures files == StagePages(env, old(files), spine, pages)
    {
      var i := 0;
      while i < |spine|
        invariant 0 <= i <= |spine|
        invariant files == StagePages(env, old(files), spine[..i], pages[..i])
      {
        WritePage(env, spine[i], pages[i]);
        StagePagesNext(env, old(files), spine, pages, i);
        i := i + 1;
      }
      assert spine[..|spine|] == spine && pages[..|pages|] == pages;
    }
  }
}
