/**
 * `extract_images`: the image URLs of a page, from `<img>` sources, from
 * `<source srcset>` and from `url(...)` in inline styles, normalised and
 * kept only when they are absolute http(s) URLs.
 */
module Images {
  import opened Wrappers
  import opened PyStr
  import opened Dom
  import opened Seqs

  // ---------------------------------------------------------------- one URL

  predicate IsHttp(u: string) {
    "http://" <= u || "https://" <= u
  }

  /** A protocol-relative `//host/...` URL gets the `https:` scheme; anything else is left alone. */
  function Normalized(u: string): string {
    if "//" <= u then "https:" + u else u
  }

  /** The URL a candidate contributes: its normalised form, when that is an http(s) URL. */
  function Accept(u: string): (r: Option<string>)
    ensures r.Some? ==> IsHttp(r.value)
    ensures r.Some? ==> r.value == u || r.value == "https:" + u
  {
    var v := Normalized(u);
    if IsHttp(v) then Some(v) else None
  }

  /** Every protocol-relative candidate is kept, as `https:` followed by the candidate. */
  lemma AcceptProtocolRelative(u: string)
    requires "//" <= u
    ensures Accept(u) == Some("https:" + u)
  {
    var v := "https:" + u;
    assert v[..8] == "https://" by {
      assert v[..6] == "https:";
      assert v[6] == u[0] && v[7] == u[1];
    }
  }

  /** An absolute http(s) candidate is kept as it is. */
  lemma AcceptAbsolute(u: string)
    requires IsHttp(u)
    ensures Accept(u) == Some(u)
  {
    assert !("//" <= u) by {
      assert u[0] == 'h';
    }
  }

  /**
   * Nothing else is kept: relative paths, `data:` URLs, other schemes and the
   * empty string give no URL.
   */
  lemma AcceptOnly(u: string)
    ensures Accept(u).Some? <==> IsHttp(u) || "//" <= u
  {
    if "//" <= u {
      AcceptProtocolRelative(u);
    } else if IsHttp(u) {
      AcceptAbsolute(u);
    }
  }

  /**
   * The set form of what an optional candidate contributes: at most one
   * http(s) URL, and one exactly when the candidate is present and is
   * absolute or protocol-relative.
   */
  function Accepted(c: Option<string>): (r: set<string>)
    ensures |r| <= 1 && forall u :: u in r ==> IsHttp(u)
    ensures r == {} <==> c.None? || !(IsHttp(c.value) || "//" <= c.value)
  {
    match c
    case None => {}
    case Some(u) =>
      AcceptOnly(u);
      match Accept(u) case None => {} case Some(v) => {v}
  }

  // ---------------------------------------------------------------- srcset

  /**
   * `srcset.split(",")[0].split()[0]`: the first whitespace-separated token of
   * the first comma-separated entry; None where Python's `[0]` raises.
   */
  function SrcsetFirst(srcset: string): (r: Option<string>)
    ensures r.None? <==> AllIn(BeforeFirst(srcset, ','), Whitespace)
  {
    FirstRunOf(BeforeFirst(srcset, ','), Whitespace)
  }

  // ---------------------------------------------------------------- <img>, <source>

  /** The attributes lazy-loading scripts keep an image's address in, in the order they are probed. */
  const SourceAttrs: seq<string> := ["src", "data-src", "data-lazy-src", "data-original", "data-background"]

  /** `tag.get(name)` is a non-empty string. */
  predicate Truthy(attrs: map<string, string>, name: string) {
    name in attrs && attrs[name] != ""
  }

  function AttrsOf(n: Node): map<string, string> {
    if n.Element? then n.attrs else map[]
  }

  /** `get(a) or get(b) or ...`: the value of the first attribute among `names` that is truthy. */
  function FirstTruthy(attrs: map<string, string>, names: seq<string>): (r: Option<string>)
    ensures r.None? <==> forall i :: 0 <= i < |names| ==> !Truthy(attrs, names[i])
    ensures r.Some? ==> exists i :: 0 <= i < |names| && Truthy(attrs, names[i]) && attrs[names[i]] == r.value
                                    && forall j :: 0 <= j < i ==> !Truthy(attrs, names[j])
    decreases |names|
  {
    if names == [] then None
    else if Truthy(attrs, names[0]) then Some(attrs[names[0]])
    else
      var r := FirstTruthy(attrs, names[1..]);
      assert forall i :: 0 <= i < |names| - 1 ==> names[1..][i] == names[i + 1];
      r
  }

  /** Lines 35-43: the candidate an `<img>` offers, or the exception its `srcset` raises. */
  function ImgCandidate(attrs: map<string, string>): Result<Option<string>, Crash> {
    var src := FirstTruthy(attrs, SourceAttrs);
    if src.Some? then Success(src)
    else if Truthy(attrs, "srcset") then
      var first := SrcsetFirst(attrs["srcset"]);
      if first.None? then Failure(SrcsetWithoutUrl) else Success(first)
    else Success(None)
  }

  /**
   * A truthy source attribute wins, probed in order; only when all five are
   * absent or empty is the first `srcset` token used, and a blank first
   * entry raises; with neither, the `<img>` offers nothing.
   */
  lemma ImgCandidateRules(attrs: map<string, string>)
    ensures var r := ImgCandidate(attrs);
      && (r.Failure? <==> (forall i :: 0 <= i < |SourceAttrs| ==> !Truthy(attrs, SourceAttrs[i]))
                          && Truthy(attrs, "srcset") && AllIn(BeforeFirst(attrs["srcset"], ','), Whitespace))
      && (r.Failure? ==> r.error == SrcsetWithoutUrl)
      && (r.Success? && r.value.Some? ==>
            (exists i :: 0 <= i < |SourceAttrs| && Truthy(attrs, SourceAttrs[i]) && attrs[SourceAttrs[i]] == r.value.value
                         && forall j :: 0 <= j < i ==> !Truthy(attrs, SourceAttrs[j]))
            || ((forall i :: 0 <= i < |SourceAttrs| ==> !Truthy(attrs, SourceAttrs[i]))
                && Truthy(attrs, "srcset") && SrcsetFirst(attrs["srcset"]) == r.value))
      && (r.Success? && r.value.None? <==>
            (forall i :: 0 <= i < |SourceAttrs| ==> !Truthy(attrs, SourceAttrs[i])) && !Truthy(attrs, "srcset"))
  {
  }

  /** Lines 52-56: the candidate a `<source>` offers, or the exception its `srcset` raises. */
  function SourceCandidate(attrs: map<string, string>): Result<Option<string>, Crash> {
    if Truthy(attrs, "srcset") then
      var first := SrcsetFirst(attrs["srcset"]);
      if first.None? then Failure(SrcsetWithoutUrl) else Success(first)
    else Success(None)
  }

  /** A `<source>` offers the first token of a truthy `srcset`, raises on a blank first entry, and otherwise offers nothing. */
  lemma SourceCandidateRules(attrs: map<string, string>)
    ensures var r := SourceCandidate(attrs);
      && (r.Failure? <==> Truthy(attrs, "srcset") && AllIn(BeforeFirst(attrs["srcset"], ','), Whitespace))
      && (r.Failure? ==> r.error == SrcsetWithoutUrl)
      && (r.Success? ==> (r.value.Some? <==> Truthy(attrs, "srcset")))
      && (r.Success? && Truthy(attrs, "srcset") ==> r.value == SrcsetFirst(attrs["srcset"]))
      && (r.Success? && r.value.Some? ==> r.value.value != [] && NoneIn(r.value.value, Whitespace))
  {
  }

  // ---------------------------------------------------------------- url(...)

  /**
   * Where `.*?\)` ends when tried on `t`: the index of the first `)`, as
   * long as no line break comes before it (`.` does not match one).
   */
  function CloseParen(t: string): (r: Option<nat>)
    ensures r.Some? ==> r.value < |t| && t[r.value] == ')' && NoneIn(t[..r.value], {')', '\n'})
    ensures r.None? ==> forall k :: 0 <= k < |t| && t[k] == ')' ==> '\n' in t[..k]
  {
    var inner := BeforeFirst(t, ')');
    if |inner| < |t| && '\n' !in inner then
      assert t[..|inner|] == inner;
      Some(|inner|)
    else
      assert forall k :: 0 <= k < |t| && t[k] == ')' ==> |inner| <= k && inner == t[..|inner|];
      None
  }

  /**
   * `re.findall(r"url\((.*?)\)", style)`: scanning left to right, each
   * `url(` that is closed by a `)` before any line break yields the text in
   * between, and the scan goes on after that `)`; an unclosed `url(` is skipped.
   */
  function UrlArgs(s: string): (r: seq<string>)
    ensures forall i :: 0 <= i < |r| ==> NoneIn(r[i], {')', '\n'})
    decreases |s|
  {
    if |s| < 4 then []
    else if s[..4] == "url(" then
      match CloseParen(s[4..])
      case Some(k) =>
        assert s[4..][..k] == s[4..4 + k];
        [s[4..4 + k]] + UrlArgs(s[4 + k + 1..])
      case None => UrlArgs(s[1..])
    else UrlArgs(s[1..])
  }

  /** A `url(...)` at the front of the style yields its argument first, and the scan resumes after it. */
  lemma UrlArgsLeading(arg: string, rest: string)
    requires NoneIn(arg, {')', '\n'})
    ensures UrlArgs("url(" + arg + ")" + rest) == [arg] + UrlArgs(rest)
  {
    var s := "url(" + arg + ")" + rest;
    var k := |arg|;
    assert s[..4] == "url(";
    assert s[4..][..k] == arg && s[4..][k] == ')';
    assert BeforeFirst(s[4..], ')') == arg by {
      var b := BeforeFirst(s[4..], ')');
      assert |b| == k;
    }
    assert s[4..4 + k] == arg;
    assert s[4 + k + 1..] == rest;
  }

  /** No `url(` starts anywhere inside `p`, even one that runs on into `s`. */
  predicate NoUrlOpenIn(p: string, s: string) {
    forall i :: 0 <= i < |p| ==> !("url(" <= (p + s)[i..])
  }

  /**
   * Text before the first `url(` yields nothing: the scan over `p + s`
   * gives what the scan over `s` gives.
   */
  lemma {:induction false} UrlArgsSkip(p: string, s: string)
    requires NoUrlOpenIn(p, s)
    ensures UrlArgs(p + s) == UrlArgs(s)
    decreases |p|
  {
    if p != [] {
      var t := p + s;
      assert !("url(" <= t[0..]);
      assert t[0..] == t;
      assert t[1..] == p[1..] + s;
      assert NoUrlOpenIn(p[1..], s) by {
        forall i | 0 <= i < |p| - 1
          ensures !("url(" <= (p[1..] + s)[i..])
        {
          assert (p[1..] + s)[i..] == t[i + 1..];
        }
      }
      UrlArgsSkip(p[1..], s);
    }
  }

  /** A style in which no `url(` starts yields no argument at all. */
  lemma UrlArgsNone(s: string)
    requires NoUrlOpenIn(s, "")
    ensures UrlArgs(s) == []
  {
    assert s + "" == s;
    UrlArgsSkip(s, "");
  }

  /**
   * A `url(` that is never closed, or whose text reaches a line break before
   * any `)`, is skipped: the scan goes on one character later, so a `url(`
   * after the line break still counts.
   */
  lemma UrlArgsUnclosed(arg: string, rest: string)
    requires NoneIn(arg, {')'}) && ('\n' in arg || NoneIn(rest, {')'}))
    ensures UrlArgs("url(" + arg + rest) == UrlArgs("rl(" + arg + rest)
  {
    var t := arg + rest;
    var s := "url(" + t;
    assert s == "url(" + arg + rest && "rl(" + t == "rl(" + arg + rest;
    assert s[..4] == "url(" && s[4..] == t && s[1..] == "rl(" + t;
    CloseParenUnclosed(arg, rest);
    UrlArgsStep(s);
  }

  /** The scan moves one character on at a `url(` that nothing closes. */
  lemma UrlArgsStep(s: string)
    requires |s| >= 4 && s[..4] == "url(" && CloseParen(s[4..]).None?
    ensures UrlArgs(s) == UrlArgs(s[1..])
  {
  }

  /** No `)` closes `arg + rest` before a line break when `arg` has none and runs into one, or nothing follows with a `)`. */
  lemma CloseParenUnclosed(arg: string, rest: string)
    requires NoneIn(arg, {')'}) && ('\n' in arg || NoneIn(rest, {')'}))
    ensures CloseParen(arg + rest).None?
  {
    var t := arg + rest;
    var inner := BeforeFirst(t, ')');
    assert |inner| >= |arg| by {
      assert forall k :: 0 <= k < |arg| ==> t[k] == arg[k] && t[k] != ')';
    }
    if '\n' in arg {
      var k :| 0 <= k < |arg| && arg[k] == '\n';
      assert inner[k] == t[k] == arg[k];
      assert '\n' in inner;
    } else {
      assert forall k :: 0 <= k < |t| ==> t[k] != ')' by {
        assert forall k :: |arg| <= k < |t| ==> t[k] == rest[k - |arg|];
      }
      assert |inner| == |t|;
    }
  }

  /** The characters `match.strip("\"' ")` trims from a `url()` argument. */
  const Quotes: set<char> := {'"', '\'', ' '}

  function Unquoted(m: string): string {
    Strip(m, Quotes)
  }

  function StyleOf(n: Node): string {
    var attrs := AttrsOf(n);
    if "style" in attrs then attrs["style"] else ""
  }

  /** The URL a `url()` argument contributes, once unquoted and normalised. */
  function ArgUrl(arg: string): Option<string> {
    Accept(Unquoted(arg))
  }

  /** The URLs a list of `url()` arguments contributes, added one argument at a time. */
  function StyleUrls(args: seq<string>): (r: set<string>)
    ensures forall u :: u in r ==> IsHttp(u)
    decreases |args|
  {
    if args == [] then {}
    else
      var here := ArgUrl(args[|args| - 1]);
      StyleUrls(args[..|args| - 1]) + (if here.Some? then {here.value} else {})
  }

  /** A URL comes from a style exactly when one of its `url()` arguments yields it. */
  lemma {:induction false} StyleUrlsMembers(args: seq<string>, u: string)
    ensures u in StyleUrls(args) <==> exists m :: m in args && ArgUrl(m) == Some(u)
    decreases |args|
  {
    if args != [] {
      var front, last := args[..|args| - 1], args[|args| - 1];
      InFrontOrLast(args);
      StyleUrlsMembers(front, u);
      var here := ArgUrl(last);
      assert StyleUrls(args) == StyleUrls(front) + (if here.Some? then {here.value} else {});
      if u in StyleUrls(args) {
        if u in StyleUrls(front) {
          var m :| m in front && ArgUrl(m) == Some(u);
          assert m in args;
        } else {
          assert here == Some(u) && last in args;
        }
      } else {
        forall m | m in args
          ensures ArgUrl(m) != Some(u)
        {
          if m !in front {
            assert m == last;
          }
        }
      }
    }
  }

  // ---------------------------------------------------------------- scans

  /** The three loops of `extract_images`. */
  datatype Scan = ImgScan | SourceScan | StyleScan

  /** The elements each loop visits: `find_all("img")`, `find_all("source")`, `find_all(style=True)`. */
  function Visited(scan: Scan): Selector {
    match scan
    case ImgScan => Tag("img")
    case SourceScan => Tag("source")
    case StyleScan => WithAttr("style")
  }

  /** What one visited element adds to the set, or the exception it raises. */
  function ElementUrls(scan: Scan, n: Node): (r: Result<set<string>, Crash>)
    ensures r.Success? ==> forall u :: u in r.value ==> IsHttp(u)
    ensures r.Failure? ==> r.error == SrcsetWithoutUrl && scan != StyleScan
  {
    match scan
    case ImgScan =>
      var c :- ImgCandidate(AttrsOf(n));
      Success(Accepted(c))
    case SourceScan =>
      var c :- SourceCandidate(AttrsOf(n));
      Success(Accepted(c))
    case StyleScan => Success(StyleUrls(UrlArgs(StyleOf(n))))
  }

  /** What each visited element adds, in the order the loop visits them. */
  function Outcomes(scan: Scan, hits: seq<Hit>): (r: seq<Result<set<string>, Crash>>)
    ensures |r| == |hits| && forall k :: 0 <= k < |hits| ==> r[k] == ElementUrls(scan, hits[k].node)
  {
    seq(|hits|, k requires 0 <= k < |hits| => ElementUrls(scan, hits[k].node))
  }

  /** A loop's set, built left to right: the union of the outcomes, unless one of them raises. */
  function Gather(rs: seq<Result<set<string>, Crash>>): Result<set<string>, Crash>
    decreases |rs|
  {
    if rs == [] then Success({})
    else
      var before :- Gather(rs[..|rs| - 1]);
      var here :- rs[|rs| - 1];
      Success(before + here)
  }

  /** A loop raises exactly when one of its elements raises, and with that element's exception. */
  lemma {:induction false} GatherFails(rs: seq<Result<set<string>, Crash>>)
    ensures Gather(rs).Failure? <==> exists k :: 0 <= k < |rs| && rs[k].Failure?
    ensures Gather(rs).Failure? ==> exists k :: 0 <= k < |rs| && rs[k].Failure? && rs[k].error == Gather(rs).error
    decreases |rs|
  {
    if rs != [] {
      var front := rs[..|rs| - 1];
      GatherFails(front);
      assert forall k :: 0 <= k < |front| ==> front[k] == rs[k];
    }
  }

  /** Without an exception, a URL is in a loop's set exactly when some element adds it. */
  lemma {:induction false} GatherMembers(rs: seq<Result<set<string>, Crash>>, u: string)
    requires Gather(rs).Success?
    ensures u in Gather(rs).value <==> exists k :: 0 <= k < |rs| && rs[k].Success? && u in rs[k].value
    decreases |rs|
  {
    if rs != [] {
      var front := rs[..|rs| - 1];
      GatherMembers(front, u);
      assert forall k :: 0 <= k < |front| ==> front[k] == rs[k];
    }
  }

  /** Once the elements visited so far raise, the loop ends with that exception. */
  lemma {:induction false} GatherPrefixFails(rs: seq<Result<set<string>, Crash>>, n: nat)
    requires n <= |rs| && Gather(rs[..n]).Failure?
    ensures Gather(rs) == Gather(rs[..n])
    decreases |rs| - n
  {
    if n < |rs| {
      TakeMore(rs, n);
      GatherPrefixFails(rs, n + 1);
    } else {
      TakeAll(rs);
    }
  }

  /** One more element: its exception ends the loop, otherwise what it adds joins the set. */
  lemma GatherStep(rs: seq<Result<set<string>, Crash>>, i: nat)
    requires i < |rs| && Gather(rs[..i]).Success?
    ensures rs[i].Failure? ==> Gather(rs[..i + 1]) == Failure(rs[i].error)
    ensures rs[i].Success? ==> Gather(rs[..i + 1]) == Success(Gather(rs[..i]).value + rs[i].value)
  {
    TakeMore(rs, i);
  }

  /** One loop of `extract_images` over the page. */
  function ScanAll(scan: Scan, hits: seq<Hit>): Result<set<string>, Crash> {
    Gather(Outcomes(scan, FindAll(hits, Visited(scan))))
  }

  /** A URL is contributed by a visited element, without an exception. */
  predicate Contributes(scan: Scan, h: Hit, u: string) {
    ElementUrls(scan, h.node).Success? && u in ElementUrls(scan, h.node).value
  }

  /** An element of the page the loop visits that raises makes the loop raise. */
  lemma ScanAllFailsIf(scan: Scan, hits: seq<Hit>, h: Hit)
    requires h in hits && Matches(Visited(scan), h) && ElementUrls(scan, h.node).Failure?
    ensures ScanAll(scan, hits).Failure?
  {
    var visited := FindAll(hits, Visited(scan));
    var rs := Outcomes(scan, visited);
    GatherFails(rs);
    var k :| 0 <= k < |visited| && visited[k] == h;
    assert rs[k].Failure?;
  }

  /** A loop raises only for an element it visits, and only `SrcsetWithoutUrl`. */
  lemma ScanAllFailsOnly(scan: Scan, hits: seq<Hit>) returns (h: Hit)
    requires ScanAll(scan, hits).Failure?
    ensures h in hits && Matches(Visited(scan), h) && ElementUrls(scan, h.node).Failure?
    ensures ScanAll(scan, hits).error == SrcsetWithoutUrl
  {
    var visited := FindAll(hits, Visited(scan));
    var rs := Outcomes(scan, visited);
    GatherFails(rs);
    var k :| 0 <= k < |rs| && rs[k].Failure? && rs[k].error == Gather(rs).error;
    h := visited[k];
    assert h in visited;
  }

  /** A loop raises exactly when an element it visits raises. */
  lemma ScanAllFails(scan: Scan, hits: seq<Hit>)
    ensures ScanAll(scan, hits).Failure? <==>
      exists h :: h in hits && Matches(Visited(scan), h) && ElementUrls(scan, h.node).Failure?
    ensures ScanAll(scan, hits).Failure? ==> ScanAll(scan, hits).error == SrcsetWithoutUrl
  {
    if exists h :: h in hits && Matches(Visited(scan), h) && ElementUrls(scan, h.node).Failure? {
      var h :| h in hits && Matches(Visited(scan), h) && ElementUrls(scan, h.node).Failure?;
      ScanAllFailsIf(scan, hits, h);
    }
    if ScanAll(scan, hits).Failure? {
      var h := ScanAllFailsOnly(scan, hits);
    }
  }

  /** What an element the loop visits contributes is in the loop's set. */
  lemma ScanAllMembersIf(scan: Scan, hits: seq<Hit>, h: Hit, u: string)
    requires ScanAll(scan, hits).Success?
    requires h in hits && Matches(Visited(scan), h) && Contributes(scan, h, u)
    ensures u in ScanAll(scan, hits).value
  {
    var visited := FindAll(hits, Visited(scan));
    GatherMembers(Outcomes(scan, visited), u);
    var k :| 0 <= k < |visited| && visited[k] == h;
  }

  /** Everything in the loop's set is contributed by an element it visits. */
  lemma ScanAllMembersOnly(scan: Scan, hits: seq<Hit>, u: string) returns (h: Hit)
    requires ScanAll(scan, hits).Success? && u in ScanAll(scan, hits).value
    ensures h in hits && Matches(Visited(scan), h) && Contributes(scan, h, u)
  {
    var visited := FindAll(hits, Visited(scan));
    var rs := Outcomes(scan, visited);
    GatherMembers(rs, u);
    var k :| 0 <= k < |rs| && rs[k].Success? && u in rs[k].value;
    h := visited[k];
    assert h in visited;
  }

  /** Without an exception, a loop's set holds exactly what the elements it visits contribute. */
  lemma ScanAllMembers(scan: Scan, hits: seq<Hit>, u: string)
    requires ScanAll(scan, hits).Success?
    ensures u in ScanAll(scan, hits).value <==> exists h :: h in hits && Matches(Visited(scan), h) && Contributes(scan, h, u)
  {
    if exists h :: h in hits && Matches(Visited(scan), h) && Contributes(scan, h, u) {
      var h :| h in hits && Matches(Visited(scan), h) && Contributes(scan, h, u);
      ScanAllMembersIf(scan, hits, h, u);
    }
    if u in ScanAll(scan, hits).value {
      var h := ScanAllMembersOnly(scan, hits, u);
    }
  }

  /** The set `extract_images` builds, or the exception it raises. */
  function Harvest(doc: Node): Result<set<string>, Crash> {
    var hits := Descendants(doc, {});
    var fromImgs :- ScanAll(ImgScan, hits);
    var fromSources :- ScanAll(SourceScan, hits);
    var fromStyles :- ScanAll(StyleScan, hits);
    Success(fromImgs + fromSources + fromStyles)
  }

  /**
   * Without an exception, a URL is harvested exactly when one of the three
   * loops gets it from an element it visits: the set is the union of the scans.
   */
  lemma HarvestMembers(doc: Node, u: string)
    requires Harvest(doc).Success?
    ensures u in Harvest(doc).value <==> exists scan: Scan, h :: h in Descendants(doc, {}) && Matches(Visited(scan), h) && Contributes(scan, h, u)
  {
    var hits := Descendants(doc, {});
    ScanAllMembers(ImgScan, hits, u);
    ScanAllMembers(SourceScan, hits, u);
    ScanAllMembers(StyleScan, hits, u);
    if exists scan: Scan, h :: h in hits && Matches(Visited(scan), h) && Contributes(scan, h, u) {
      var scan: Scan, h :| h in hits && Matches(Visited(scan), h) && Contributes(scan, h, u);
      assert scan == ImgScan || scan == SourceScan || scan == StyleScan;
    }
  }

  /** Every harvested URL is an absolute http(s) URL. */
  lemma HarvestIsHttp(doc: Node)
    requires Harvest(doc).Success?
    ensures forall u :: u in Harvest(doc).value ==> IsHttp(u)
  {
    forall u | u in Harvest(doc).value
      ensures IsHttp(u)
    {
      HarvestMembers(doc, u);
      var scan: Scan, h :| h in Descendants(doc, {}) && Matches(Visited(scan), h) && Contributes(scan, h, u);
    }
  }

  /**
   * `extract_images` raises exactly when some `<img>` or `<source>` of the
   * page has to fall back on a `srcset` whose first entry is blank.
   */
  lemma HarvestFails(doc: Node)
    ensures Harvest(doc).Failure? <==>
      exists h :: h in Descendants(doc, {}) &&
        ((Matches(Tag("img"), h) && ImgCandidate(AttrsOf(h.node)).Failure?)
         || (Matches(Tag("source"), h) && SourceCandidate(AttrsOf(h.node)).Failure?))
    ensures Harvest(doc).Failure? ==> Harvest(doc).error == SrcsetWithoutUrl
  {
    var hits := Descendants(doc, {});
    ScanAllFails(ImgScan, hits);
    ScanAllFails(SourceScan, hits);
    ScanAllFails(StyleScan, hits);
  }

  // ---------------------------------------------------------------- in place

  /** `list(image_urls)`: the members of the set, each once, in an order the set does not fix. */
  method SetToSeq(s: set<string>) returns (xs: seq<string>)
    ensures forall u :: u in xs <==> u in s
    ensures forall i, j :: 0 <= i < j < |xs| ==> xs[i] != xs[j]
  {
    xs := [];
    var left := s;
    while left != {}
      invariant left !! (set u | u in xs) && left + (set u | u in xs) == s
      invariant forall i, j :: 0 <= i < j < |xs| ==> xs[i] != xs[j]
      decreases left
    {
      var u :| u in left;
      xs := xs + [u];
      left := left - {u};
    }
  }

  /** Loop 1 (lines 34-49): each `<img>`, probing the lazy-loading attributes, then `srcset`. */
  method AddImgUrls(imgs: seq<Hit>, urls: set<string>) returns (r: Result<set<string>, Crash>)
    ensures r.Failure? <==> Gather(Outcomes(ImgScan, imgs)).Failure?
    ensures r.Failure? ==> r.error == Gather(Outcomes(ImgScan, imgs)).error
    ensures r.Success? ==> r.value == urls + Gather(Outcomes(ImgScan, imgs)).value
  {
    ghost var outcomes := Outcomes(ImgScan, imgs);
    var added := urls;
    for i := 0 to |imgs|
      invariant Gather(outcomes[..i]).Success?
      invariant added == urls + Gather(outcomes[..i]).value
    {
      GatherStep(outcomes, i);
      var src := ImgCandidate(AttrsOf(imgs[i].node));
      if src.Failure? {
        GatherPrefixFails(outcomes, i + 1);
        return Failure(src.error);
      }
      ghost var before := added;
      if src.value.Some? {
        var u := Normalized(src.value.value);
        if IsHttp(u) {
          added := added + {u};
        }
      }
      assert added == before + Accepted(src.value);
    }
    TakeAll(outcomes);
    return Success(added);
  }

  /** Loop 2 (lines 52-59): each `<source>` with a truthy `srcset`. */
  method AddSourceUrls(sources: seq<Hit>, urls: set<string>) returns (r: Result<set<string>, Crash>)
    ensures r.Failure? <==> Gather(Outcomes(SourceScan, sources)).Failure?
    ensures r.Failure? ==> r.error == Gather(Outcomes(SourceScan, sources)).error
    ensures r.Success? ==> r.value == urls + Gather(Outcomes(SourceScan, sources)).value
  {
    ghost var outcomes := Outcomes(SourceScan, sources);
    var added := urls;
    for i := 0 to |sources|
      invariant Gather(outcomes[..i]).Success?
      invariant added == urls + Gather(outcomes[..i]).value
    {
      GatherStep(outcomes, i);
      var first := SourceCandidate(AttrsOf(sources[i].node));
      if first.Failure? {
        GatherPrefixFails(outcomes, i + 1);
        return Failure(first.error);
      }
      ghost var before := added;
      if first.value.Some? {
        var u := Normalized(first.value.value);
        if IsHttp(u) {
          added := added + {u};
        }
      }
      assert added == before + Accepted(first.value);
    }
    TakeAll(outcomes);
    return Success(added);
  }

  /** Loop 3 (lines 62-69): each `url(...)` of each inline `style`; this loop never raises. */
  method AddStyleUrls(styled: seq<Hit>, urls: set<string>) returns (added: set<string>)
    ensures Gather(Outcomes(StyleScan, styled)).Success?
    ensures added == urls + Gather(Outcomes(StyleScan, styled)).value
  {
    ghost var outcomes := Outcomes(StyleScan, styled);
    added := urls;
    for i := 0 to |styled|
      invariant Gather(outcomes[..i]).Success?
      invariant added == urls + Gather(outcomes[..i]).value
    {
      GatherStep(outcomes, i);
      ghost var before := added;
      var args := UrlArgs(StyleOf(styled[i].node));
      for k := 0 to |args|
        invariant added == before + StyleUrls(args[..k])
      {
        TakeMore(args, k);
        var u := Normalized(Unquoted(args[k]));
        if IsHttp(u) {
          added := added + {u};
        }
      }
      TakeAll(args);
    }
    TakeAll(outcomes);
  }

  /** Lines 30-71 as they run: three loops adding to one set, then its list. */
  method ExtractImages(doc: Node) returns (r: Result<seq<string>, Crash>)
    ensures r.Success? <==> Harvest(doc).Success?
    ensures r.Failure? ==> r.error == Harvest(doc).error
    ensures r.Success? ==> (forall u :: u in r.value <==> u in Harvest(doc).value)
                           && forall i, j :: 0 <= i < j < |r.value| ==> r.value[i] != r.value[j]
  {
    var hits := Descendants(doc, {});
    var imageUrls: set<string> := {};
    var step := AddImgUrls(FindAll(hits, Visited(ImgScan)), imageUrls);
    if step.Failure? {
      return Failure(step.error);
    }
    imageUrls := step.value;
    step := AddSourceUrls(FindAll(hits, Visited(SourceScan)), imageUrls);
    if step.Failure? {
      return Failure(step.error);
    }
    imageUrls := step.value;
    imageUrls := AddStyleUrls(FindAll(hits, Visited(StyleScan)), imageUrls);
    var list := SetToSeq(imageUrls);
    return Success(list);
  }
}
