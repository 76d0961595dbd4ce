# Blog scraper extraction core, in Dafny

This project models the extraction logic of the blog scraper service in
`app.py` and proves properties of it. The service fetches a blog page, parses
it and builds a reply with three fields:

- `title`: the page title;
- `content_html`: the post's content region, cleaned of boilerplate;
- `images`: every image URL on the page.

The model starts from a page that is already parsed. That page is a tree of
`Dom.Node` values: elements with a tag, attributes and ordered children, and
text nodes. Every node carries an identity, standing for the parsed object.
The modules follow the code:

- `PyStr` holds the Python string operations the code relies on:
  `strip()`, `strip(chars)`, `split(",")[0]` and `split()`.
- `Dom` holds the tree and the library queries as the code uses them:
  `find`, `find_all`, `select`, `.string` and `get_text(strip=True)`. Each CSS
  selector is an explicit `Selector` value.
- `Removal` holds `decompose()`, the `select`-then-`decompose` loops and
  `clean_html`. They work in place on a `Region` object whose `root` field
  the methods update.
- `Content` holds `extract_blog_content`:
  - locating the region: `<article>`, else the class tiers, else `<body>`;
  - deleting the `remove_selectors` matches;
  - `clean_html`.
- `Images` holds `extract_images`: three loops adding to one set, then `list()`.
- `Title` holds the title choice in `scrape_blog`.
- `Scrape` holds the handler's sequence on a parsed page: the title, the
  content, then the images.

Each state-changing method or loop is proved against a function that
specifies it:

- `ExtractBlogContent` is proved equal to `BlogContent`;
- `ExtractImages` and the three loops are proved against `Harvest` / `Gather`;
- `ChooseTitle` is proved equal to `PageTitle`;
- `LocateContent` is proved equal to `Locate`.

The lemmas beside those functions state what the code promises.

The exceptions that end the handler with status 500 are modelled as `Crash`
values in a `Result`:

- `TitleWithoutString`: `soup.title.string` is None;
- `NoBody`: there is no region, and `.select` is called on None;
- `SrcsetWithoutUrl`: a blank first `srcset` entry makes `split()[0]` fail.

## Model

| member | source | states |
|---|---|---|
| PyStr.Strip | app.py:136 | `strip(chars)` leaves a string that neither starts nor ends with one of the stripped characters |
| PyStr.StripCuts | app.py:65 | what `strip` leaves is the slice of the input after its leading run of stripped characters; only stripped characters are cut at either end |
| PyStr.BeforeFirst | app.py:43 | `split(",")[0]` is a comma-free prefix that ends at the first comma or at the end of the string |
| PyStr.SplitRuns | app.py:43 | every token of `split()` is non-empty and has no whitespace |
| PyStr.SplitEmpty | app.py:43 | `split()` gives no token exactly when the string is all whitespace, which is when `[0]` raises |
| PyStr.FirstRun | app.py:43 | `split()[0]` is the longest whitespace-free run starting at the first non-whitespace character |
| PyStr.FirstRunOf | app.py:43 | the first token, or None exactly when the string is all whitespace; a token is non-empty and whitespace-free |
| Dom.FindAll | app.py:34 | `find_all` returns exactly the matching nodes of the page |
| Dom.Find | app.py:80 | `find` gives None exactly when nothing matches; otherwise a matching node of the page |
| Dom.FindFirst | app.py:80 | what `find` returns is the first match in document order |
| Dom.SelectIds | app.py:109 | `select` returns exactly the identities of the matching descendants |
| Dom.StringOf | app.py:136 | `.string` of a text node is its text; an element with one child has that child's `.string`, and with one text child that text; a value is always all the text of the node; an element without exactly one child has None |
| Dom.JoinStripped | app.py:139 | `get_text(strip=True)` has no whitespace at either end, is empty exactly when every string strips to nothing, and of a single string is that string stripped |
| Dom.JoinStrippedAppend | app.py:139 | the stripped text of two runs of strings is the stripped text of each, glued in order |
| Dom.WithinUnique | app.py:109-110 | in a parsed page, a node found below the root is determined by its identity, so a selected object stands for exactly one subtree |
| Removal.Prune | app.py:108-110 | deleting matched subtrees keeps the root's identity, tag and attributes |
| Removal.PruneClean | app.py:108-110 | nothing the selector matches is left below the root |
| Removal.PruneKeeps | app.py:108-110 | a node is kept exactly when it was in the tree and no match above it covers it |
| Removal.PruneShape | app.py:108-110 | deleting only leaves nodes out: the pruned tree's nodes are, in document order, nodes of the original with the same tags above them, each equal to its original with the same deletion applied below it, so it keeps its identity, tag, attributes, text and its own surviving children |
| Removal.EmbedsMembers | app.py:108-110 | every node left after a deletion is its original node with the deletion applied below it, and keeps that node's shell |
| Removal.PruneNothing | app.py:108-110 | a selector that matches nothing leaves the tree unchanged |
| Removal.PruneTwice | app.py:108-113 | deleting by one selector, then by another, is deleting by their union |
| Removal.PruneDistinct | app.py:108-110 | the pruned tree is still made of distinct nodes |
| Removal.DetachTwice | app.py:110 | two rounds of `decompose()` equal one round over both sets of nodes |
| Removal.DetachInAbsent | app.py:110 | decomposing a node already gone with an ancestor changes nothing and does not fail |
| Removal.DetachDistinct | app.py:110 | `decompose()` keeps the tree made of distinct nodes |
| Removal.DetachInIsPrune | app.py:109-110 | detaching exactly the matched nodes is deleting by the selector |
| Removal.DecomposingMatchesIsPrune | app.py:109-110 | decomposing every node `select` returned is deleting by the selector, nested matches included |
| Removal.NoiseFree | app.py:22-23 | after `clean_html`, no `style`, `script`, `svg` or `noscript` element is left; a node is kept exactly when none of those contains it; kept nodes keep their order and are their originals with the same deletion below them |
| Removal.Region.Decompose | app.py:110 | `decompose()` on one node: the new root is the old one with that node detached |
| Removal.Region.DecomposeAll | app.py:109-110 | `for tag in root.select(sel): tag.decompose()` leaves the root pruned by `sel` |
| Removal.Region.DecomposeEach | app.py:108-110 | one `DecomposeAll` per selector of the list leaves the root pruned by the whole list |
| Removal.Region.CleanHtml | app.py:20-25 | `clean_html` leaves the root pruned by the four noise tags |
| Content.FirstTierNone | app.py:82-91 | the class loop finds no `div` exactly when no tier's `find` finds one |
| Content.FirstTierSome | app.py:82-91 | the tier the loop stops at finds a `div`, and no earlier tier does |
| Content.LocateFound | app.py:80-94 | the region is a node of the page: an `<article>`, a `div` carrying one of the tokens, or `<body>` |
| Content.NoRegionIsNone | app.py:80-94 | a page with no `<article>`, no `div` of any tier and no `<body>` has no region |
| Content.LocateNone | app.py:80-94 | there is no region exactly when the page has none of the three kinds |
| Content.LocateContent | app.py:80-94 | the loop with its `break` picks the same region as the tier function |
| Content.ArticleWins | app.py:80 | whenever the page has an `<article>`, the region is the first `<article>` in document order, whatever class tiers match |
| Content.ClassPriority | app.py:81-91 | without an `<article>`, a `div` of tier k means the region is the first `div` in document order of some tier i <= k, and no node of the page matches any tier before i |
| Content.BodyFallback | app.py:93-94 | `<body>` is taken when there is no `<article>` and no `div` of any tier |
| Content.ClassBeatsDocumentOrder | app.py:82-91 | a later `div.blog-content` beats an earlier `div.content`: class priority beats document order |
| Content.BlogContent | app.py:76-115 | the content fails exactly when there is no region, with `NoBody`, and otherwise keeps the region's identity |
| Content.FilterMisses | app.py:97-113 | a node the combined filter misses matches no entry of `remove_selectors` and is no noise tag |
| Content.ContentIsClean | app.py:97-113 | no node of the returned content matches an entry of `remove_selectors` or is a noise tag |
| Content.ContentKeeps | app.py:97-113 | a node is in the returned content exactly when it is in the region and no deleted subtree contains it; every node of the content is, in document order, a node of the region with the same deletion applied below it, so its tag, attributes, text and own children are kept |
| Content.ExtractBlogContent | app.py:76-115 | locating, the nine `select`/`decompose` loops and `clean_html`, in place, give exactly `BlogContent` |
| Images.Accept | app.py:46-49 | a kept URL is http(s), and it is the candidate or `https:` followed by the candidate |
| Images.AcceptProtocolRelative | app.py:46-49 | a `//` candidate is kept as `https:` followed by the candidate |
| Images.AcceptAbsolute | app.py:48-49 | an http(s) candidate is kept unchanged |
| Images.AcceptOnly | app.py:46-49 | a candidate is kept exactly when it is http(s) or starts with `//`; relative, `data:` and empty candidates never are |
| Images.Accepted | app.py:45-49 | an optional candidate adds at most one URL, always http(s), and adds nothing exactly when it is missing or neither absolute http(s) nor protocol-relative |
| Images.SrcsetFirst | app.py:43 | the first `srcset` token is missing exactly when the first comma-separated entry is blank |
| Images.FirstTruthy | app.py:35-41 | the `or` chain gives the value of the first truthy attribute, and None exactly when none is truthy |
| Images.ImgCandidateRules | app.py:35-43 | a truthy source attribute wins in probe order; only when all five fail is `srcset` used, and a blank first entry raises; otherwise nothing |
| Images.SourceCandidateRules | app.py:53-55 | a `<source>` with a truthy `srcset` offers exactly `SrcsetFirst` of it, a non-empty whitespace-free token, and raises on a blank first entry; without one it offers nothing |
| Images.CloseParen | app.py:64 | the lazy `.*?\)` ends at the first `)`, provided no line break comes before it |
| Images.UrlArgs | app.py:64 | no `url()` argument holds a `)` or a line break |
| Images.UrlArgsLeading | app.py:64 | a `url(arg)` at the front gives `arg` first, and the scan goes on after its `)` |
| Images.UrlArgsSkip | app.py:64 | text in which no `url(` starts changes nothing about the scan that follows, so a `url(...)` after other text, as in `background:url(a.png)`, is found as if it came first |
| Images.UrlArgsNone | app.py:64 | a style in which no `url(` starts yields no argument at all |
| Images.UrlArgsUnclosed | app.py:64 | a `url(` that is never closed, or meets a line break before any `)`, yields nothing, and the scan resumes one character later, so a later `url(...)` still counts |
| Images.StyleUrls | app.py:64-69 | every URL a style adds is http(s) |
| Images.StyleUrlsMembers | app.py:64-69 | a URL comes from a style exactly when one of its unquoted, normalised `url()` arguments gives it |
| Images.ElementUrls | app.py:34-69 | what one element adds is http(s); only `<img>` and `<source>` can raise, and only `SrcsetWithoutUrl` |
| Images.GatherFails | app.py:34-69 | a loop raises exactly when one of its elements raises, with that element's exception |
| Images.GatherMembers | app.py:34-69 | without an exception, a loop's set is the union of what its elements add |
| Images.GatherPrefixFails | app.py:34-69 | once the elements visited so far raise, the loop ends with that exception |
| Images.GatherStep | app.py:34-69 | one more element either raises or adds its URLs to the set |
| Images.ScanAllFailsIf | app.py:34-59 | an element the loop visits that raises makes the loop raise |
| Images.ScanAllFailsOnly | app.py:34-59 | a loop raises only for an element it visits, and only with `SrcsetWithoutUrl` |
| Images.ScanAllFails | app.py:34-69 | a loop raises exactly when an element it visits raises |
| Images.ScanAllMembersIf | app.py:34-69 | what a visited element adds is in the loop's set |
| Images.ScanAllMembersOnly | app.py:34-69 | everything in the loop's set was added by a visited element |
| Images.ScanAllMembers | app.py:34-69 | a loop's set holds exactly what its visited elements add |
| Images.HarvestMembers | app.py:30-71 | a URL is harvested exactly when one of the three loops gets it from an element it visits |
| Images.HarvestIsHttp | app.py:30-71 | every harvested URL starts with `http://` or `https://` |
| Images.HarvestFails | app.py:30-71 | `extract_images` raises exactly when some `<img>` or `<source>` must fall back on a `srcset` with a blank first entry |
| Images.SetToSeq | app.py:71 | `list(set)` has exactly the set's members, each once |
| Images.AddImgUrls | app.py:34-49 | the `<img>` loop adds exactly the loop's gathered set, or raises its exception |
| Images.AddSourceUrls | app.py:52-59 | the `<source>` loop adds exactly the loop's gathered set, or raises its exception |
| Images.AddStyleUrls | app.py:62-69 | the style loop never raises and adds exactly the loop's gathered set |
| Images.ExtractImages | app.py:30-71 | the returned list has no duplicates and holds exactly the harvested URLs; it raises exactly when the harvest does |
| Title.TitleText | app.py:135-136 | the `<title>` text is missing exactly when there is no `<title>`; it raises exactly when the `<title>` has no `.string`; it is stripped |
| Title.TitleOfText | app.py:135-136 | a `<title>` holding one text node gives that text stripped and does not raise |
| Title.PageTitle | app.py:134-139 | the title raises only when the `<title>` text does, and it has no whitespace at either end |
| Title.TitleWins | app.py:135-136 | a `<title>` with non-empty stripped text is the title, whatever `<h1>` says |
| Title.H1Fallback | app.py:137-139 | when the `<title>` text is missing or empty, the first `<h1>`'s stripped text is the title |
| Title.H1OfText | app.py:137-139 | an `<h1>` holding one text node gives that text stripped |
| Title.EmptyDefault | app.py:137-150 | with no title text and no `<h1>`, the title is `""` |
| Title.TitleSources | app.py:134-139 | the title is the `<title>` text, or the `<h1>` text when that is missing or empty, or `""` |
| Scrape.ChooseTitle | app.py:134-139 | the step-by-step assignments give exactly `PageTitle` |
| Scrape.ScrapeBlog | app.py:131-150 | the handler fails exactly when the title, content or images raise, with the first exception in that order; otherwise the reply holds the title, the content and a duplicate-free list of the harvested URLs |
| Scrape.DeletedImagesKept | app.py:131-147 | an `<img>` inside a subtree the content pipeline deletes still contributes its URL, because images come from the other parse |

## Left out

- The Flask route, JSON parsing of the request, the 400 reply for a missing `url`, CORS, logging and `app.run` are service plumbing. `ScrapeBlog` starts from the parsed page and models an exception as a `Crash` value, not as a 500 reply.
- `requests.get`, its timeout, its headers and `raise_for_status` are network I/O and are not modelled.
- Parsing by BeautifulSoup is not modelled: the page is a given tree with distinct node identities. The two parses of the same text are modelled as the same tree value. `ExtractBlogContent` edits its own `Region`, and the images come from the unedited value.
- The page root passed to `Locate`, `ExtractBlogContent` and `ScrapeBlog` stands for the parser's `[document]` object. Its tag is in the ancestry of every node, so a root tagged like a real element, such as `header`, is not a parsed page.
- Serialisation is not modelled. The reply's `content` field is the content tree that `str(article).strip()` would print.
- The CSS engine is not modelled. Each entry of `remove_selectors` is a `Selector` predicate. `header .entry-meta` means "has the `entry-meta` class token and has a `header` ancestor anywhere above it".
- `class_=cls` and `.cls` match a class token exactly. That is how the library behaves for the space-free tokens the code uses.
- The regular expression engine is not modelled. `UrlArgs` scans for `url(` directly: a `url(` with no `)` before the next line break is skipped, and the scan resumes one character later.
- Comments, CDATA and other special strings are not modelled. Text is plain text nodes only, so `.string` and `get_text` see only those.
- Removal.Region.Decompose: the tree is a value that the method replaces in the `root` field. Parent pointers and object aliasing between the region and the rest of the page are not modelled.
- Images.SetToSeq: the order of `list(set)` depends on string hashing. The result is any duplicate-free ordering of the set's members.
- The `title or ""` default of line 150 is part of `Title.PageTitle` and `Scrape.ChooseTitle`.
- The test `if not article` on line 143 would return 422. It is never reached: a located region is a tag, a tag is always truthy, and a missing region has already raised inside `extract_blog_content`. The model has no 422 outcome.

## Where the code differs from its design notes

The service's design notes promise more than `app.py` does. The model follows the code:

- The notes put `<h1>`, then `<h2>`, before `<title>`, with a placeholder such as "Untitled". The code takes `<title>` first, then `<h1>` only, with `""` as the default.
- The notes say a missing content region is never an error. The code raises inside `extract_blog_content`, which becomes a 500 reply, not a distinct "no content" outcome.
- The notes keep images in first-seen order, resolve relative URLs against the page and derive file names. The code returns the set as a list in no fixed order, drops relative URLs and derives no names.
- The notes add a 200-character text threshold, substring class heuristics and `<main>` to the region search. The code has none of these, and it falls back on `<body>` only, not on the whole document.
- The notes describe a sanitiser that rewrites `<img>` attributes, removes data-URI images, drops `href` and collapses wrappers. The code's `clean_html` only deletes `style`, `script`, `svg` and `noscript`, and the model does the same.
- The notes probe a `data-lazy` attribute for images. The code does not, and neither does the model.
