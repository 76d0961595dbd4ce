/**
 * The title of a scraped post: the stripped text of the page's `<title>`,
 * else the stripped text of its first `<h1>`, else the empty string.
 */
module Title {
  import opened Wrappers
  import opened PyStr
  import opened Dom

  /** No whitespace at either end: what `strip()` and `get_text(strip=True)` leave. */
  predicate Stripped(t: string) {
    t != [] ==> t[0] !in Whitespace && t[|t| - 1] !in Whitespace
  }

  /** `soup.title`: the first `<title>` of the page. */
  function TitleTag(doc: Node): Option<Hit> {
    Find(Descendants(doc, {}), Tag("title"))
  }

  /** `soup.find("h1")`: the first `<h1>` of the page. */
  function FirstH1(doc: Node): Option<Hit> {
    Find(Descendants(doc, {}), Tag("h1"))
  }

  /** `soup.title.string.strip()` when there is a `<title>`; the exception when its `.string` is None. */
  function TitleText(doc: Node): (r: Result<Option<string>, Crash>)
    ensures r.Failure? <==> TitleTag(doc).Some? && StringOf(TitleTag(doc).value.node).None?
    ensures r.Failure? ==> r.error == TitleWithoutString
    ensures r.Success? ==> (r.value.None? <==> TitleTag(doc).None?)
    ensures r.Success? && r.value.Some? ==> Stripped(r.value.value)
  {
    match TitleTag(doc)
    case None => Success(None)
    case Some(t) =>
      match StringOf(t.node)
      case None => Failure(TitleWithoutString)
      case Some(s) => Success(Some(Trim(s)))
  }

  /** A `<title>` holding one text node, `<title>Blog</title>`, gives that text stripped and does not raise. */
  lemma TitleOfText(doc: Node)
    requires TitleTag(doc).Some?
    requires var t := TitleTag(doc).value.node; t.Element? && |t.children| == 1 && t.children[0].Text?
    ensures TitleText(doc) == Success(Some(Trim(TitleTag(doc).value.node.children[0].text)))
  {
  }

  /** An `<h1>` holding one text node gives that text stripped: `get_text(strip=True)` of `<h1> Hello </h1>` is `"Hello"`. */
  lemma H1OfText(doc: Node)
    requires FirstH1(doc).Some?
    requires var t := FirstH1(doc).value.node; t.Element? && |t.children| == 1 && t.children[0].Text?
    ensures StrippedText(FirstH1(doc).value.node) == Trim(FirstH1(doc).value.node.children[0].text)
  {
    var t := FirstH1(doc).value.node;
    assert TextsIn(t.children) == Texts(t.children[0]) + TextsIn(t.children[1..]);
    assert t.children[1..] == [];
  }

  /** A `<title>` that gives no text: there is none, or its stripped string is empty. */
  predicate NoTitleText(doc: Node)
    requires TitleText(doc).Success?
  {
    TitleText(doc).value.None? || TitleText(doc).value.value == ""
  }

  /**
   * Lines 134-139 and 150: the stripped `<title>` string, replaced by the
   * stripped text of the first `<h1>` when that is absent or empty; `""` when
   * neither gives anything. The only exception is a `<title>` without a
   * `.string`.
   */
  function PageTitle(doc: Node): (r: Result<string, Crash>)
    ensures r.Failure? <==> TitleText(doc).Failure?
    ensures r.Failure? ==> r.error == TitleWithoutString
    ensures r.Success? ==> Stripped(r.value)
  {
    var title :- TitleText(doc);
    var h1 := FirstH1(doc);
    var chosen := if h1.Some? && (title.None? || title.value == "") then Some(StrippedText(h1.value.node)) else title;
    Success(if chosen.Some? then chosen.value else "")
  }

  /** A `<title>` with text wins over any `<h1>`. */
  lemma TitleWins(doc: Node)
    requires TitleText(doc).Success? && !NoTitleText(doc)
    ensures PageTitle(doc) == Success(TitleText(doc).value.value)
    ensures exists s :: StringOf(TitleTag(doc).value.node) == Some(s) && PageTitle(doc) == Success(Trim(s)) && Trim(s) != ""
  {
    var s := StringOf(TitleTag(doc).value.node).value;
    assert PageTitle(doc) == Success(Trim(s));
  }

  /** The first `<h1>` is used exactly when the title gives no text. */
  lemma H1Fallback(doc: Node)
    requires TitleText(doc).Success? && NoTitleText(doc) && FirstH1(doc).Some?
    ensures PageTitle(doc) == Success(StrippedText(FirstH1(doc).value.node))
  {
  }

  /** With no title text and no `<h1>`, the title is the empty string. */
  lemma EmptyDefault(doc: Node)
    requires TitleText(doc).Success? && NoTitleText(doc) && FirstH1(doc).None?
    ensures PageTitle(doc) == Success("")
  {
  }

  /**
   * The title always comes from one of the two sources or is empty: it is the
   * `<title>` text, or the first `<h1>`'s text when that `<title>` text is
   * missing or empty.
   */
  lemma TitleSources(doc: Node)
    requires PageTitle(doc).Success?
    ensures var t := PageTitle(doc).value;
      (TitleText(doc).value.Some? && t == TitleText(doc).value.value)
      || (NoTitleText(doc) && FirstH1(doc).Some? && t == StrippedText(FirstH1(doc).value.node))
      || (NoTitleText(doc) && FirstH1(doc).None? && t == "")
  {
    if NoTitleText(doc) {
      if FirstH1(doc).Some? {
        H1Fallback(doc);
      } else {
        EmptyDefault(doc);
      }
    } else {
      TitleWins(doc);
    }
  }
}
