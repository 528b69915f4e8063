# Article page: line-oriented markdown rendering and page state

This project models the core of the article page of adsela (`src/app/new-page/page.jsx`).
A language model writes an Arabic article as plain text, using a small markdown
vocabulary: `# ` for headings, `## ` for subheadings, `> ` for quotes, `- ` and
`1. ` for list items. The page renders that text in two ways:

- `renderFormattedText` turns it into display elements, one per line.
- `convertToHtml` turns it into an HTML string for export, with optional header
  and footer images around the body.

Each renderer has its own copy of the line-classifying `if` chain. The model
keeps both copies as written (`Render.ViewLine`, `Render.HtmlLine`). It also
defines the chain once on its own (`Markdown.Classify`) and proves that both
copies agree with it, and so with each other, line for line.

Around the renderers, the page keeps component state: the topic, the keyword
list, the `result` record, the error message and the live `streamingMessage`.
The model keeps that state in a class, `Page.ArticlePage`. Its methods are the
event handlers: generating keywords, submitting an article request, the arrival
of the images, and the stream callbacks `onChunk` and `onFinish`. Network
replies are parameters of these methods.

Modules:

- `Strings`: the JavaScript string operations the page uses (`split`, `join`,
  `startsWith`, `indexOf`, `slice`, `trim`), on `seq<char>`. `trim()` and the
  regular-expression class `\s` share one whitespace predicate, `IsWs`. It holds
  the ECMAScript WhiteSpace and LineTerminator code points.
- `Markdown`: the line kinds and the classifier.
- `Render`: the view renderer, the HTML renderer, the HTML document with its
  images, and the agreement proofs.
- `Keywords`: parsing the keyword reply.
- `Page`: the component state and its handlers.
- `Scenarios`: worked examples on concrete articles.

Notes on what the code does:

- The code has no attempt tokens. A late callback from an earlier submission
  is not told apart from a current one.
- The two images are fetched one after the other, not concurrently. Both URLs
  are stored together, and only when both requests succeed. A failure of either
  request sets the one combined error message. When the header request fails,
  the footer request is never made.
- The ordered-item test accepts any whitespace after the dot (`\s`), not only
  a space. The item's text is cut after the first space `' '` in the line. With
  a tab after the dot, the marker stays in the text when the line has no space
  (`Markdown.OrderedItemAfterTab`). When a space comes later, the text before
  that space is lost (`Markdown.OrderedItemAfterTabLosesText`).
- A blank line is tested with `trim()`, after the four prefix tests and the
  ordered-item test.
- The HTML body is built from the text passed to `convertToHtml`. The images
  come from the current `result` record, and the topic goes into their `alt`
  attributes.

## Model

| member | source | states |
|---|---|---|
| `Strings.IsWs` | src/app/new-page/page.jsx:224 | the whitespace set of `trim()` and of `\s` at line 217: the ECMAScript WhiteSpace and LineTerminator code points |
| `Strings.StartsWith` | src/app/new-page/page.jsx:181 | `startsWith(prefix)`: the prefix fits and the first characters equal it; the same test serves the marker tests at lines 188, 195, 210 and 247-262 |
| `Strings.Trim` | src/app/new-page/page.jsx:224 | `trim()` is no longer than the string, and neither end of what it returns is whitespace |
| `Strings.IsBlank` | src/app/new-page/page.jsx:66 | a string whose `trim()` is empty, the falsy case of `k.trim()`; the same test guards the topic at lines 30 and 77 and finds blank lines at lines 224 and 272 |
| `Strings.Join` | src/app/new-page/page.jsx:277 | `join("\n")`: the pieces with one separator between neighbours, the empty string for no pieces |
| `Strings.IndexOf` | src/app/new-page/page.jsx:220 | `indexOf(" ")` is -1 exactly when the character is absent; otherwise it is the first position holding it |
| `Strings.SliceFrom` | src/app/new-page/page.jsx:220 | `slice(k)` is a suffix of the line; its length is that of the line minus `k`, or it is empty when `k` is past the end |
| `Strings.TrimStart` | src/app/new-page/page.jsx:224 | the result is a suffix, what it drops is all whitespace, and it does not start with whitespace |
| `Strings.TrimEnd` | src/app/new-page/page.jsx:224 | the result is a prefix, what it drops is all whitespace, and it does not end with whitespace |
| `Strings.TrimEmptyIff` | src/app/new-page/page.jsx:224 | `trim()` is empty exactly when every character is whitespace |
| `Strings.Split` | src/app/new-page/page.jsx:180 | `split("\n")` gives at least one piece, and no piece holds the separator |
| `Strings.SplitLength` | src/app/new-page/page.jsx:180 | `split` gives one more piece than the string has separators |
| `Strings.JoinSplit` | src/app/new-page/page.jsx:244-277 | joining the pieces of a split gives back the string |
| `Strings.SplitJoin` | src/app/new-page/page.jsx:244-277 | splitting a join of separator-free pieces gives back the pieces |
| `Strings.JoinAppend` | src/app/new-page/page.jsx:277 | a join of two runs of pieces is their joins with one separator between |
| `Markdown.DigitRun` | src/app/new-page/page.jsx:217 | the leading run of `\d` characters is all digits and is maximal |
| `Markdown.OrderedMarkerIff` | src/app/new-page/page.jsx:217 | the computed test holds exactly when `/^\d+\.\s/` matches: some k ≥ 1 digits, a dot, one whitespace character |
| `Markdown.Classify` | src/app/new-page/page.jsx:181-230 | the chain of tests, first match wins; the text of every kind is a suffix of the line |
| `Markdown.MarkersExclusive` | src/app/new-page/page.jsx:181-216 | the four prefix markers exclude each other; a line starting `## ` never starts `# ` |
| `Markdown.ClassifyMarkerKinds` | src/app/new-page/page.jsx:181-216 | heading, subheading, quote and unordered item each hold exactly when the line starts with its marker |
| `Markdown.ClassifyOtherKinds` | src/app/new-page/page.jsx:217-230 | ordered item iff the pattern matches; blank iff all whitespace; paragraph iff none of the other tests holds |
| `Markdown.ClassifyText` | src/app/new-page/page.jsx:181-230 | the texts are `line[2..]`, `line[3..]`, `line[2..]` and `line[2..]` for the markers, empty for a blank line, the whole line for a paragraph |
| `Markdown.OrderedItemSlice` | src/app/new-page/page.jsx:217-222 | an ordered item's text is `line.slice(line.indexOf(" ") + 1)` |
| `Markdown.OrderedItemText` | src/app/new-page/page.jsx:217-222 | an ordered item's text follows the first space of the line, or is the whole line when the line has no space |
| `Markdown.SubheadingBeforeOrdered` | src/app/new-page/page.jsx:188-222 | `## 2. Heading` is a subheading with text `2. Heading`, not an ordered item |
| `Markdown.OrderedItemAfterTab` | src/app/new-page/page.jsx:217-222 | `1.` followed by a tab is an ordered item whose text is the whole line |
| `Markdown.OrderedItemAfterTabLosesText` | src/app/new-page/page.jsx:217-222 | with a tab after the dot, the text up to the first later space is dropped |
| `Render.NodeOf` | src/app/new-page/page.jsx:181-230 | the element each line kind becomes in the view: `h2`, `h3`, `blockquote`, `li` for both item kinds, `br`, `p` |
| `Render.Serialize` | src/app/new-page/page.jsx:248-275 | the HTML fragment of each element; the tags and inline styles match the source character for character |
| `Render.ViewLine` | src/app/new-page/page.jsx:180-232 | the view's own chain gives the node of `Classify` for every line |
| `Render.HtmlLine` | src/app/new-page/page.jsx:246-276 | the HTML renderer's own chain gives the fragment of the view's node for every line |
| `Render.ViewRender` | src/app/new-page/page.jsx:177-233 | `null` exactly for the empty text; otherwise one node per line of `split("\n")`, in order, blank lines included |
| `Render.Fragments` | src/app/new-page/page.jsx:244-276 | one fragment per line of the split |
| `Render.ParseSerialize` | src/app/new-page/page.jsx:247-275 | each fragment reads back as the node it came from, keeping both its kind and its text |
| `Render.FragmentHasNoNewline` | src/app/new-page/page.jsx:246-276 | no fragment holds a newline |
| `Render.RenderersAgree` | src/app/new-page/page.jsx:180-277 | the HTML body splits into exactly as many fragments as the view has nodes; fragment i is the serialisation of node i |
| `Render.HtmlBody` | src/app/new-page/page.jsx:244-277 | the body of `convertToHtml`: the fragments of the lines joined with newlines |
| `Render.HeaderImage` | src/app/new-page/page.jsx:241 | the header `<img>` tag with the URL and the topic in its `alt`; it matches the source character for character |
| `Render.FooterImage` | src/app/new-page/page.jsx:280 | the footer `<img>` tag with the URL and the topic in its `alt`; it matches the source character for character |
| `Render.Document` | src/app/new-page/page.jsx:235-284 | the whole `convertToHtml` result: `""` for an empty text, else the header block, the body and the footer block |
| `Render.DocumentJoin` | src/app/new-page/page.jsx:238-283 | the HTML is the newline join of the header image line and a blank line, the fragments, and a blank line and the footer image line |
| `Render.DocumentLines` | src/app/new-page/page.jsx:235-283 | split on newlines, the HTML is the image lines (when set) around exactly the body's fragments |
| `Render.BodyEnds` | src/app/new-page/page.jsx:244-277 | the body never starts like an `<img` tag nor ends like one |
| `Render.DocumentHeaderIff` | src/app/new-page/page.jsx:240-242 | for a non-empty text the HTML starts with `<img` exactly when a header image is set |
| `Render.DocumentFooterIff` | src/app/new-page/page.jsx:279-281 | for a non-empty text the HTML ends with the image tag's close exactly when a footer image is set |
| `Render.DocumentWithoutImages` | src/app/new-page/page.jsx:235-283 | the empty text gives `""` even with images set; without images the HTML is exactly the joined fragments |
| `Keywords.NonBlank` | src/app/new-page/page.jsx:66 | the kept entries are entries of the input, none of them blank, and there are no more of them |
| `Keywords.ParseKeywords` | src/app/new-page/page.jsx:64-66 | no keyword is blank or holds a newline; there are at most as many keywords as lines |
| `Keywords.NonBlankIsSubsequence` | src/app/new-page/page.jsx:64-66 | the keywords are a subsequence of the reply's lines: their order is kept |
| `Keywords.NonBlankCounts` | src/app/new-page/page.jsx:64-66 | duplicates are kept: each non-blank line occurs among the keywords as often as among the lines, and a blank one never |
| `Keywords.NonBlankSingle` | src/app/new-page/page.jsx:66 | one line is kept exactly when it is not blank |
| `Keywords.NonBlankKeepsEveryKeyword` | src/app/new-page/page.jsx:64-66 | every line that is not blank is kept |
| `Keywords.NonBlankEmptyIff` | src/app/new-page/page.jsx:64-66 | no keyword comes out exactly when every line is blank |
| `Keywords.NonBlankAppend` | src/app/new-page/page.jsx:66 | the filter works line by line: filtering a concatenation concatenates the filters |
| `Keywords.NonBlankIdempotent` | src/app/new-page/page.jsx:66 | filtering twice is filtering once |
| `Keywords.ParseJoinedKeywords` | src/app/new-page/page.jsx:64-66 | a keyword list joined with newlines parses back to the same list, untrimmed |
| `Page.ArticlePage.constructor` | src/app/new-page/page.jsx:7-19 | the initial state: empty topic, no keywords, an empty result, no error, no live text |
| `Page.ArticlePage.SetTopic` | src/app/new-page/page.jsx:326 | the topic input sets the topic |
| `Page.ArticlePage.GenerateKeywords` | src/app/new-page/page.jsx:29-74 | a blank topic sets the missing-topic error and changes nothing else; otherwise the error is cleared and then either the keywords are the parsed reply or the keyword error is set |
| `Page.ArticlePage.KeywordLines` | src/app/new-page/page.jsx:119-122 | the keyword lines of the article request: empty without keywords, and otherwise they parse back to exactly the stored keyword list |
| `Page.ArticlePage.GenerateArticle` | src/app/new-page/page.jsx:76-132 | a blank topic sets the missing-topic error and leaves `result` alone; otherwise `result` is reset to three empty strings, the error is cleared, and the stream starts, with the image requests to follow, exactly when the request got a response |
| `Page.ArticlePage.ImagesFetched` | src/app/new-page/page.jsx:134-165 | called only after the article request responded, and once; both image URLs are stored together only when both requests succeed; a failure of either sets the combined error; the article is kept |
| `Page.ArticlePage.OnChunk` | src/app/new-page/page.jsx:22 | the live text becomes the text received so far and is what is shown when non-empty |
| `Page.ArticlePage.OnFinish` | src/app/new-page/page.jsx:23-26 | the final text becomes the article, both images are kept, the live text is cleared, and the final text is what is shown |
| `Page.ArticlePage.DisplayedText` | src/app/new-page/page.jsx:510 | the live text when it is non-empty, otherwise the article; empty only when both are |
| `Page.ArticlePage.View` | src/app/new-page/page.jsx:510 | nothing is rendered exactly when both texts are empty; otherwise one node per line of the shown text, node i being the classified line i |
| `Page.ArticlePage.ConvertToHtml` | src/app/new-page/page.jsx:235-284 | building the string step by step gives `Render.Document` of the text, the current image URLs and the topic |
| `Page.ArticlePage.CopyHtmlContent` | src/app/new-page/page.jsx:296-298 | the exported HTML is that of the finished article, never of the live text |
| `Page.VisibleTopicNotBlank` | src/app/new-page/page.jsx:77 | a topic whose first character is not whitespace passes the blank-topic guard |
| `Page.StartedPage` | src/app/new-page/page.jsx:76-132 | submitting a non-blank topic whose request responds leaves a fresh page with an empty result, no error, no live text, and the image requests pending |
| `Page.StreamScenario` | src/app/new-page/page.jsx:21-26 | chunks "Hello", "Hello world", "Hello world!" are shown as they arrive, the finished article is shown after `onFinish`, and the images then join it in `result` |
| `Scenarios.BlankLinesKept` | src/app/new-page/page.jsx:224-226 | three blank lines render as three breaks |
| `Scenarios.TwoNewlines` | src/app/new-page/page.jsx:178-226 | `"\n\n"`, with a leading, a middle and a trailing empty line, renders as three breaks |
| `Scenarios.ArticleLine` | src/app/new-page/page.jsx:181-230 | each line of a sample article renders to its node |
| `Scenarios.ArticleRenders` | src/app/new-page/page.jsx:177-277 | a text with the sample article's lines renders to a heading, a break, a paragraph, two items, a quote and two ordered items; its HTML body has the matching fragments in the same order |
| `Scenarios.ArticleView` | src/app/new-page/page.jsx:177-233 | the sample article `# Intro`, blank, `Some text`, `- item one`, `- item two`, `> a quote`, `1. first`, `2. second` renders so |

## Left out

- Network requests (the keyword request, the article request, the two image requests) are not modelled. Their outcomes are parameters of the handlers: a reply or its absence, and whether the article request responded.
- The stream reader `useHandleStreamResponse` is not part of this model. Its `onChunk` is modelled as a plain setter of the live text, and its `onFinish` as the callback in the page. How the reader accumulates chunks is not modelled, and so `OnChunk` and `OnFinish` are not tied to a stream that `GenerateArticle` started.
- Superseding a submission by attempt token is not modelled, because the code has none. Independent per-image failures are not modelled either: the code awaits the images one after the other and has one combined error.
- `copyPlainText` and the clipboard and `alert` calls of `copyHtml` are browser calls and are left out. Only the HTML that `copyHtml` would export is modelled (`CopyHtmlContent`).
- The `loading` and `keywordsLoading` flags, the JSX layout, the inline style values of the view elements, React keys, and the country and length inputs are presentation or prompt input. They are left out.
- The prompt texts and their `encodeURIComponent` building are left out. The rest of the article prompt is left out too; of it, only the keyword lines are modelled (`Page.ArticlePage.KeywordLines`).
- The error messages are modelled as three named values rather than their Arabic texts.
- JavaScript strings are sequences of UTF-16 code units. The model uses Dafny characters (Unicode scalar values), so surrogate pairs are not modelled.
