/**
 * What `scrape_blog` computes from a fetched page: the title, the cleaned
 * content region and the image URLs. The title and images come from one
 * parse of the page; the content from a second parse that the removals
 * edit, so nothing deleted from the content is lost to the image scan.
 */
module Scrape {
  import opened Wrappers
  import opened PyStr
  import opened Dom
  import opened Content
  import opened Images
  import opened Title

  /** The three fields of the JSON reply; the content is the tree `str(article)` would print. */
  datatype Payload = Payload(title: string, content: Node, images: seq<string>)

  /** Lines 134-139 and 150 as they run: assign from `<title>`, then maybe from `<h1>`, then `title or ""`. */
  method ChooseTitle(doc: Node) returns (r: Result<string, Crash>)
    ensures r == PageTitle(doc)
  {
    var hits := Descendants(doc, {});
    var title: Option<string> := None;
    var titleTag := Find(hits, Tag("title"));
    if titleTag.Some? {
      var s := StringOf(titleTag.value.node);
      if s.None? {
        return Failure(TitleWithoutString);
      }
      title := Some(Trim(s.value));
    }
    var h1 := Find(hits, Tag("h1"));
    if h1.Some? && (title.None? || title.value == "") {
      title := Some(StrippedText(h1.value.node));
    }
    return Success(if title.Some? then title.value else "");
  }

  /**
   * Lines 131-150 on a page already fetched and parsed: title, then content,
   * then images, the first exception ending the handler.
   */
  method ScrapeBlog(doc: Node) returns (r: Result<Payload, Crash>)
    requires Distinct(doc)
    ensures r.Failure? <==> PageTitle(doc).Failure? || BlogContent(doc).Failure? || Harvest(doc).Failure?
    ensures r.Failure? ==> r.error == (if PageTitle(doc).Failure? then PageTitle(doc).error
                                      else if BlogContent(doc).Failure? then BlogContent(doc).error
                                      else Harvest(doc).error)
    ensures r.Success? ==> r.value.title == PageTitle(doc).value && r.value.content == BlogContent(doc).value
    ensures r.Success? ==> (forall u :: u in r.value.images <==> u in Harvest(doc).value)
                           && forall i, j :: 0 <= i < j < |r.value.images| ==> r.value.images[i] != r.value.images[j]
  {
    var title :- ChooseTitle(doc);
    var article :- ExtractBlogContent(doc);
    // A found region is a tag, and a tag is always truthy: the 422 reply of line 143 is never sent.
    var images :- ExtractImages(doc);
    return Success(Payload(title, article, images));
  }

  /**
   * The image scan sees the whole page: an `<img>` inside a subtree the
   * content pipeline deletes (a `footer`, an `aside`) still contributes its URL.
   */
  lemma DeletedImagesKept(doc: Node, h: Hit, u: string)
    requires Distinct(doc) && BlogContent(doc).Success? && Harvest(doc).Success?
    requires h in Descendants(doc, {}) && Matches(Tag("img"), h) && Contributes(ImgScan, h, u)
    requires h.node.id !in IdsOf(BlogContent(doc).value)
    ensures u in Harvest(doc).value
  {
    HarvestMembers(doc, u);
    assert Matches(Visited(ImgScan), h);
  }
}
