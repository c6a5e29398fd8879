/**
 * The pass over a spine document's `<a>` elements and the two serialisations
 * around it.  The head is serialised and cleaned first, then every anchor's
 * `href` is renamed in place, then the body is serialised and cleaned: the
 * body text shows the renamed links and the head text does not.
 *
 * An anchor is its attribute map; the document keeps its anchors in document
 * order, the ones inside `<head>` first.  Serialising an element to text is
 * lxml's job and enters as a function of the anchors that element contains.
 */
module Anchors {
  import opened Rename
  import opened Fragments

  type Attributes = map<string, string>

  /** One anchor after the pass: its `href`, if it has one, renamed; nothing else touched. */
  function Rewritten(attrs: Attributes): (r: Attributes)
    ensures r.Keys == attrs.Keys
    ensures "href" in attrs ==> r["href"] == RenameExtensionToHtml(attrs["href"])
    ensures forall k :: k in attrs && k != "href" ==> r[k] == attrs[k]
  {
    if "href" in attrs then attrs["href" := RenameExtensionToHtml(attrs["href"])] else attrs
  }

  /** Every anchor of a document after the pass, in the same order. */
  function RewriteAll(links: seq<Attributes>): (r: seq<Attributes>)
    ensures |r| == |links|
    ensures forall i :: 0 <= i < |links| ==> r[i] == Rewritten(links[i])
  {
    if links == [] then [] else [Rewritten(links[0])] + RewriteAll(links[1..])
  }

  /**
   * Running the pass a second time changes nothing exactly when every `href`
   * is absolute or has at most one place the extension pattern matches.
   */
  lemma {:induction false} RewriteTwiceIff(links: seq<Attributes>)
    ensures RewriteAll(RewriteAll(links)) == RewriteAll(links)
            <==> forall i :: 0 <= i < |links| && "href" in links[i] ==>
                   IsAbsoluteUrl(links[i]["href"]) || SingleMatch(links[i]["href"])
  {
    var once := RewriteAll(links);
    var twice := RewriteAll(once);
    forall i | 0 <= i < |links| && "href" in links[i]
      ensures twice[i] == once[i] <==> IsAbsoluteUrl(links[i]["href"]) || SingleMatch(links[i]["href"])
    {
      var h := links[i]["href"];
      RenameIdempotentIff(h);
      if IsAbsoluteUrl(h) || SingleMatch(h) {
        assert once[i]["href" := RenameExtensionToHtml(once[i]["href"])] == once[i];
      } else {
        assert twice[i]["href"] != once[i]["href"];
      }
    }
    forall i | 0 <= i < |links| && "href" !in links[i] ensures twice[i] == once[i] {
    }
    if twice != once {
      var i :| 0 <= i < |links| && twice[i] != once[i];
      assert "href" in links[i];
    }
  }

  /** A spine document's anchors, the first `headLinks` of which lie in `<head>`. */
  class Document {
    var links: array<Attributes>
    const headLinks: nat

    predicate Valid()
      reads this
    {
      headLinks <= links.Length
    }

    constructor (anchors: seq<Attributes>, inHead: nat)
      requires inHead <= |anchors|
      ensures Valid() && links[..] == anchors && headLinks == inHead && fresh(links)
    {
      links := new Attributes[|anchors|](i requires 0 <= i < |anchors| => anchors[i]);
      headLinks := inHead;
    }

    /** Every anchor that has an `href` gets it renamed, in place and in order. */
    method RewriteLinks()
      modifies links
      ensures links[..] == RewriteAll(old(links[..]))
    {
      var i := 0;
      while i < links.Length
        invariant 0 <= i <= links.Length
        invariant forall j :: 0 <= j < i ==> links[j] == Rewritten(old(links[j]))
        invariant forall j :: i <= j < links.Length ==> links[j] == old(links[j])
      {
        var attrs := links[i];
        if "href" in attrs {
          links[i] := attrs["href" := RenameExtensionToHtml(attrs["href"])];
        }
        assert links[i] == Rewritten(old(links[i]));
        i := i + 1;
      }
      assert forall j :: 0 <= j < links.Length ==> links[..][j] == RewriteAll(old(links[..]))[j];
    }

    /**
     * The head text is serialised and cleaned before the pass, the body text
     * after it; the anchors are left renamed.
     */
    method Extract(serializeHead: seq<Attributes> -> string, serializeBody: seq<Attributes> -> string)
      returns (headContent: string, ebookContent: string)
      requires Valid()
      modifies links
      ensures links[..] == RewriteAll(old(links[..]))
      ensures headContent == HeadContent(serializeHead(old(links[..])[..headLinks]))
      ensures ebookContent == EbookContent(serializeBody(RewriteAll(old(links[..]))[headLinks..]))
    {
      headContent := HeadContent(serializeHead(links[..headLinks]));
      RewriteLinks();
      ebookContent := EbookContent(serializeBody(links[headLinks..]));
    }
  }
}
