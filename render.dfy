/** The two renderers of the article page: `renderFormattedText`, which turns
    the article into display nodes, and the body of `convertToHtml`, which
    turns it into an HTML string. Each has its own copy of the classifying
    chain; the lemmas here show that both agree with `Markdown.Classify` and so
    with each other, line for line. */
module Render {
  import opened Wrappers
  import opened Strings
  import opened Markdown

  /** A display node of the view: the element `renderFormattedText` returns
      for one line, without its React key and inline style. */
  datatype Node =
    | H2(text: string)
    | H3(text: string)
    | Blockquote(text: string)
    | Li(text: string)
    | Br
    | P(text: string)

  /** Opening and closing tags of the HTML fragments, styles included. (The
      longer ones are written in pieces so that the verifier sees their
      characters.) */
  const H2Open: string := "<h2 style=\"font-size: 24px; " + "margin: 20px 0 10px;\">"
  const H2Close: string := "</h2>"
  const H3Open: string := "<h3 style=\"font-size: 20px; " + "margin: 15px 0 10px;\">"
  const H3Close: string := "</h3>"
  const QuoteOpen: string :=
    "<blockquote style=\"border-right: " + "4px solid #9C27B0; margin: 10px 0; " +
    "padding: 10px 20px; " + "background-color: #f5f5f5;\">"
  const QuoteClose: string := "</blockquote>"
  const LiOpen: string := "<li style=\"margin-right: 20px; " + "margin-bottom: 5px;\">"
  const LiClose: string := "</li>"
  const BrTag: string := "<br>"
  const POpen: string := "<p style=\"margin-bottom: 10px; " + "line-height: 1.6;\">"
  const PClose: string := "</p>"

  /** The node a classified line is shown as: both kinds of list item become
      the same `<li>`, a blank line becomes a `<br>`. */
  function NodeOf(c: Line): Node {
    match c.kind
    case Heading => H2(c.text)
    case Subheading => H3(c.text)
    case Quote => Blockquote(c.text)
    case UnorderedItem => Li(c.text)
    case OrderedItem => Li(c.text)
    case Blank => Br
    case Paragraph => P(c.text)
  }

  /** The HTML fragment of a node. */
  function Serialize(n: Node): string {
    match n
    case H2(t) => H2Open + t + H2Close
    case H3(t) => H3Open + t + H3Close
    case Blockquote(t) => QuoteOpen + t + QuoteClose
    case Li(t) => LiOpen + t + LiClose
    case Br => BrTag
    case P(t) => POpen + t + PClose
  }

  /** The callback of `text.split("\n").map(...)` in `renderFormattedText`,
      with its own chain of tests. */
  function ViewLine(line: string): (n: Node)
    ensures n == NodeOf(Classify(line))
  {
    if StartsWith(line, "# ") then H2(line[2..])
    else if StartsWith(line, "## ") then H3(line[3..])
    else if StartsWith(line, "> ") then Blockquote(line[2..])
    else if StartsWith(line, "- ") then Li(line[2..])
    else if OrderedMarker(line) then Li(SliceFrom(line, IndexOf(line, ' ') + 1))
    else if IsBlank(line) then Br
    else P(line)
  }

  /** The callback of `text.split("\n").map(...)` in `convertToHtml`, with its
      own chain of tests. */
  function HtmlLine(line: string): (f: string)
    ensures f == Serialize(ViewLine(line))
  {
    if StartsWith(line, "# ") then H2Open + line[2..] + H2Close
    else if StartsWith(line, "## ") then H3Open + line[3..] + H3Close
    else if StartsWith(line, "> ") then QuoteOpen + line[2..] + QuoteClose
    else if StartsWith(line, "- ") then LiOpen + line[2..] + LiClose
    else if OrderedMarker(line) then LiOpen + SliceFrom(line, IndexOf(line, ' ') + 1) + LiClose
    else if IsBlank(line) then BrTag
    else POpen + line + PClose
  }

  /** `renderFormattedText(text)`: `null` for the empty string, otherwise one
      node per line of `text.split("\n")`, in order, blank lines included. */
  function ViewRender(text: string): (r: Option<seq<Node>>)
    ensures r.None? <==> text == []
    ensures r.Some? ==> |r.value| == |Split(text, '\n')| == Count(text, '\n') + 1
    ensures r.Some? ==> forall i :: 0 <= i < |r.value| ==>
      r.value[i] == NodeOf(Classify(Split(text, '\n')[i]))
  {
    if text == [] then None
    else
      var lines := Split(text, '\n');
      SplitLength(text, '\n');
      Some(seq(|lines|, i requires 0 <= i < |lines| => ViewLine(lines[i])))
  }

  /** The fragments `convertToHtml` joins, one per line. */
  function Fragments(text: string): (fs: seq<string>)
    ensures |fs| == |Split(text, '\n')|
  {
    var lines := Split(text, '\n');
    seq(|lines|, i requires 0 <= i < |lines| => HtmlLine(lines[i]))
  }

  /** The joined body of `convertToHtml`, without the images. */
  function HtmlBody(text: string): string {
    Join(Fragments(text), '\n')
  }

  /** A fragment made of the given opening tag, some text and the closing tag. */
  predicate Wrapped(f: string, open: string, close: string) {
    |open| + |close| <= |f| && f[..|open|] == open && f[|f| - |close|..] == close
  }

  /** Reads a fragment back as the node it shows. */
  function Parse(f: string): Option<Node> {
    if f == BrTag then Some(Br)
    else if Wrapped(f, H2Open, H2Close) then Some(H2(f[|H2Open|..|f| - |H2Close|]))
    else if Wrapped(f, H3Open, H3Close) then Some(H3(f[|H3Open|..|f| - |H3Close|]))
    else if Wrapped(f, QuoteOpen, QuoteClose) then Some(Blockquote(f[|QuoteOpen|..|f| - |QuoteClose|]))
    else if Wrapped(f, LiOpen, LiClose) then Some(Li(f[|LiOpen|..|f| - |LiClose|]))
    else if Wrapped(f, POpen, PClose) then Some(P(f[|POpen|..|f| - |PClose|]))
    else None
  }

  /** The characters that tell the opening tags apart. */
  lemma TagFacts()
    ensures H2Open[1] == 'h' && H2Open[2] == '2' && H3Open[1] == 'h' && H3Open[2] == '3'
    ensures QuoteOpen[1] == 'b' && LiOpen[1] == 'l' && POpen[1] == 'p'
    ensures |H2Open| > 4 && |H3Open| > 4 && |QuoteOpen| > 4 && |LiOpen| > 4 && |POpen| > 4
  {
  }

  lemma HeadingTagsHaveNoNewline()
    ensures '\n' !in H2Open && '\n' !in H3Open
  {
  }

  lemma QuoteTagHasNoNewline()
    ensures '\n' !in QuoteOpen
  {
    var a, b := "<blockquote style=\"border-right: ", "4px solid #9C27B0; margin: 10px 0; ";
    var c, d := "padding: 10px 20px; ", "background-color: #f5f5f5;\">";
    assert '\n' !in a && '\n' !in b;
    assert '\n' !in c && '\n' !in d;
    AbsentFromAppend(a, b, '\n');
    AbsentFromAppend(a + b, c, '\n');
    AbsentFromAppend(a + b + c, d, '\n');
  }

  lemma ItemTagsHaveNoNewline()
    ensures '\n' !in LiOpen && '\n' !in POpen
  {
  }

  /** No tag holds a newline. */
  lemma TagsHaveNoNewline()
    ensures '\n' !in H2Open && '\n' !in H3Open && '\n' !in QuoteOpen && '\n' !in LiOpen && '\n' !in POpen
    ensures '\n' !in H2Close && '\n' !in H3Close && '\n' !in QuoteClose && '\n' !in LiClose && '\n' !in PClose
    ensures '\n' !in BrTag
  {
    HeadingTagsHaveNoNewline();
    QuoteTagHasNoNewline();
    ItemTagsHaveNoNewline();
  }

  lemma WrappedOwn(open: string, t: string, close: string)
    ensures Wrapped(open + t + close, open, close)
    ensures (open + t + close)[|open|..|open + t + close| - |close|] == t
  {
    var f := open + t + close;
    assert f[..|open|] == open;
    assert f[|f| - |close|..] == close;
  }

  /** A fragment is not wrapped in an opening tag that differs from its own at
      position `j`. */
  lemma NotWrapped(o1: string, t: string, c1: string, o2: string, c2: string, j: nat)
    requires j < |o1| && j < |o2| && o1[j] != o2[j]
    ensures !Wrapped(o1 + t + c1, o2, c2)
  {
    var f := o1 + t + c1;
    assert f[j] == o1[j];
    if |o2| <= |f| {
      assert f[..|o2|][j] == f[j];
    }
  }

  /** Reading a fragment back gives the node it was made from: the fragment
      keeps both the kind and the text of the node. */
  lemma ParseSerialize(n: Node)
    ensures Parse(Serialize(n)) == Some(n)
  {
    var f := Serialize(n);
    TagFacts();
    match n
    case Br =>
    case H2(t) =>
      WrappedOwn(H2Open, t, H2Close);
      assert |f| > |BrTag|;
    case H3(t) =>
      WrappedOwn(H3Open, t, H3Close);
      assert |f| > |BrTag|;
      NotWrapped(H3Open, t, H3Close, H2Open, H2Close, 2);
    case Blockquote(t) =>
      WrappedOwn(QuoteOpen, t, QuoteClose);
      assert |f| > |BrTag|;
      NotWrapped(QuoteOpen, t, QuoteClose, H2Open, H2Close, 1);
      NotWrapped(QuoteOpen, t, QuoteClose, H3Open, H3Close, 1);
    case Li(t) =>
      WrappedOwn(LiOpen, t, LiClose);
      assert |f| > |BrTag|;
      NotWrapped(LiOpen, t, LiClose, H2Open, H2Close, 1);
      NotWrapped(LiOpen, t, LiClose, H3Open, H3Close, 1);
      NotWrapped(LiOpen, t, LiClose, QuoteOpen, QuoteClose, 1);
    case P(t) =>
      WrappedOwn(POpen, t, PClose);
      assert |f| > |BrTag|;
      NotWrapped(POpen, t, PClose, H2Open, H2Close, 1);
      NotWrapped(POpen, t, PClose, H3Open, H3Close, 1);
      NotWrapped(POpen, t, PClose, QuoteOpen, QuoteClose, 1);
      NotWrapped(POpen, t, PClose, LiOpen, LiClose, 1);
  }

  /** A tag pair around a text without newlines holds none. */
  lemma WrappedHasNoNewline(open: string, t: string, close: string)
    requires '\n' !in open && '\n' !in t && '\n' !in close
    ensures '\n' !in open + t + close
  {
    AbsentFromAppend(open, t, '\n');
    AbsentFromAppend(open + t, close, '\n');
  }

  /** The fragment of a node whose text holds no newline holds none. */
  lemma SerializeHasNoNewline(n: Node)
    requires !n.Br? ==> '\n' !in n.text
    ensures '\n' !in Serialize(n)
  {
    TagsHaveNoNewline();
    match n
    case Br =>
    case H2(t) => WrappedHasNoNewline(H2Open, t, H2Close);
    case H3(t) => WrappedHasNoNewline(H3Open, t, H3Close);
    case Blockquote(t) => WrappedHasNoNewline(QuoteOpen, t, QuoteClose);
    case Li(t) => WrappedHasNoNewline(LiOpen, t, LiClose);
    case P(t) => WrappedHasNoNewline(POpen, t, PClose);
  }

  /** No fragment holds a newline: the text it carries is part of one line. */
  lemma FragmentHasNoNewline(line: string)
    requires '\n' !in line
    ensures '\n' !in HtmlLine(line)
  {
    var c := Classify(line);
    SuffixKeepsAbsence(c.text, line, '\n');
    SerializeHasNoNewline(NodeOf(c));
  }

  /** The two renderers agree: splitting the HTML body on newlines gives one
      fragment per view node, and each fragment reads back as the node at the
      same position. */
  lemma RenderersAgree(text: string)
    requires text != []
    ensures var nodes := ViewRender(text).value;
      var pieces := Split(HtmlBody(text), '\n');
      |pieces| == |nodes| &&
      forall i :: 0 <= i < |nodes| ==> pieces[i] == Serialize(nodes[i]) && Parse(pieces[i]) == Some(nodes[i])
  {
    var lines := Split(text, '\n');
    var fs := Fragments(text);
    forall i | 0 <= i < |fs| ensures '\n' !in fs[i] {
      FragmentHasNoNewline(lines[i]);
    }
    SplitJoin(fs, '\n');
    var nodes := ViewRender(text).value;
    forall i | 0 <= i < |nodes| ensures Parse(fs[i]) == Some(nodes[i]) {
      ParseSerialize(nodes[i]);
    }
  }

  /** The pieces of the two image tags around their `src` and `alt`
      values. */
  const ImgSrc: string := "<img src=\""
  const ImgAlt: string := "\" alt=\""
  const HeaderAlt: string := " - صورة رئيسية\" "
  const FooterAlt: string := " - صورة ختامية\" "
  const ImgWidth: string := "style=\"width: 100%; "
  const ImgMaxWidth: string := "max-width: 800px; "
  const ImgRadius: string := "border-radius: 10px; "
  const HeaderMargin: string := "margin-bottom: 20px;\">"
  const FooterMargin: string := "margin-top: 20px;\">"

  /** The header image fragment of `convertToHtml`. */
  function HeaderImage(url: string, topic: string): string {
    ImgSrc + url + ImgAlt + topic + HeaderAlt + ImgWidth + ImgMaxWidth + ImgRadius + HeaderMargin
  }

  /** The footer image fragment of `convertToHtml`. */
  function FooterImage(url: string, topic: string): string {
    ImgSrc + url + ImgAlt + topic + FooterAlt + ImgWidth + ImgMaxWidth + ImgRadius + FooterMargin
  }

  /** What `convertToHtml(text)` returns: nothing for an empty text whatever
      the images; otherwise the header image and a blank line when there is a
      header image, the body, and a blank line and the footer image when there
      is a footer image. */
  function Document(text: string, header: string, footer: string, topic: string): string {
    if text == [] then [] else HeaderBlock(header, topic) + HtmlBody(text) + FooterBlock(footer, topic)
  }

  /** What `convertToHtml` puts before the body: the header image and a blank
      line, when there is a header image. */
  function HeaderBlock(header: string, topic: string): string {
    if header != [] then HeaderImage(header, topic) + "\n\n" else []
  }

  /** What `convertToHtml` puts after the body: a blank line and the footer
      image, when there is a footer image. */
  function FooterBlock(footer: string, topic: string): string {
    if footer != [] then "\n\n" + FooterImage(footer, topic) else []
  }

  /** The lines the images add before and after the body. */
  function HeaderLines(header: string, topic: string): seq<string> {
    if header != [] then [HeaderImage(header, topic), []] else []
  }

  function FooterLines(footer: string, topic: string): seq<string> {
    if footer != [] then [[], FooterImage(footer, topic)] else []
  }

  lemma ImgFramesHaveNoNewline()
    ensures '\n' !in ImgSrc && '\n' !in ImgAlt && '\n' !in HeaderAlt && '\n' !in FooterAlt
  {
  }

  lemma ImgStylesHaveNoNewline()
    ensures '\n' !in ImgWidth && '\n' !in ImgMaxWidth && '\n' !in ImgRadius
    ensures '\n' !in HeaderMargin && '\n' !in FooterMargin
  {
  }

  /** An image fragment holds no newline unless its reference or the topic
      does. */
  lemma ImageHasNoNewline(url: string, topic: string, alt: string, margin: string)
    requires '\n' !in url && '\n' !in topic && '\n' !in alt && '\n' !in margin
    requires '\n' !in ImgSrc && '\n' !in ImgAlt
    requires '\n' !in ImgWidth && '\n' !in ImgMaxWidth && '\n' !in ImgRadius
    ensures '\n' !in ImgSrc + url + ImgAlt + topic + alt + ImgWidth + ImgMaxWidth + ImgRadius + margin
  {
    var s := ImgSrc; 
    AbsentFromAppend(s, url, '\n'); s := s + url;
    AbsentFromAppend(s, ImgAlt, '\n'); s := s + ImgAlt;
    AbsentFromAppend(s, topic, '\n'); s := s + topic;
    AbsentFromAppend(s, alt, '\n'); s := s + alt;
    AbsentFromAppend(s, ImgWidth, '\n'); s := s + ImgWidth;
    AbsentFromAppend(s, ImgMaxWidth, '\n'); s := s + ImgMaxWidth;
    AbsentFromAppend(s, ImgRadius, '\n'); s := s + ImgRadius;
    AbsentFromAppend(s, margin, '\n');
  }

  /** No line before or after the body holds a newline when neither the
      image references nor the topic do. */
  lemma ImageLinesHaveNoNewline(header: string, footer: string, topic: string)
    requires '\n' !in header && '\n' !in footer && '\n' !in topic
    ensures forall i :: 0 <= i < |HeaderLines(header, topic)| ==> '\n' !in HeaderLines(header, topic)[i]
    ensures forall i :: 0 <= i < |FooterLines(footer, topic)| ==> '\n' !in FooterLines(footer, topic)[i]
  {
    ImgFramesHaveNoNewline();
    ImgStylesHaveNoNewline();
    ImageHasNoNewline(header, topic, HeaderAlt, HeaderMargin);
    ImageHasNoNewline(footer, topic, FooterAlt, FooterMargin);
  }

  /** An image line and a blank line joined before some pieces. */
  lemma JoinAfterImage(img: string, fs: seq<string>)
    requires |fs| >= 1
    ensures Join([img, []] + fs, '\n') == img + "\n\n" + Join(fs, '\n')
  {
    var j := Join(fs, '\n');
    var rest: seq<string> := [[]] + fs;
    JoinPrepend([], fs);
    assert [img, []] + fs == [img] + rest;
    JoinPrepend(img, rest);
    assert [] + ['\n'] + j == ['\n'] + j;
    NewlinePair(img, j);
  }

  /** Two newline characters in a row are the string `"\n\n"`, wherever
      they stand. (A lemma of its own: inline, this step exhausts the solver
      in `JoinAfterImage` and `JoinBeforeImage`.) */
  lemma NewlinePair(x: string, y: string)
    ensures x + ['\n'] + (['\n'] + y) == x + "\n\n" + y
    ensures x + "\n\n" + y == x + ("\n\n" + y)
  {
    assert "\n\n" == ['\n'] + ['\n'];
  }

  /** A piece joined before a non-empty run of pieces. */
  lemma JoinPrepend(x: string, fs: seq<string>)
    requires |fs| >= 1
    ensures Join([x] + fs, '\n') == x + ['\n'] + Join(fs, '\n')
  {
    assert ([x] + fs)[1..] == fs;
  }

  lemma JoinBlankThen(img: string)
    ensures Join([[], img], '\n') == ['\n'] + img
  {
    var two: seq<string> := [[], img];
    assert two[1..] == [img];
  }

  /** A blank line and an image line joined after some pieces. */
  lemma JoinBeforeImage(fs: seq<string>, img: string)
    requires |fs| >= 1
    ensures Join(fs + [[], img], '\n') == Join(fs, '\n') + ("\n\n" + img)
  {
    JoinBlankThen(img);
    JoinAppend(fs, [[], img], '\n');
    NewlinePair(Join(fs, '\n'), img);
  }

  /** Image lines before a run of pieces join into the header block. */
  lemma HeadJoin(fs: seq<string>, header: string, topic: string)
    requires |fs| >= 1
    ensures Join(HeaderLines(header, topic) + fs, '\n') == HeaderBlock(header, topic) + Join(fs, '\n')
  {
    if header != [] {
      var img := HeaderImage(header, topic);
      assert HeaderLines(header, topic) == [img, []];
      assert HeaderBlock(header, topic) == img + "\n\n";
      JoinAfterImage(img, fs);
    } else {
      assert HeaderLines(header, topic) + fs == fs;
    }
  }

  /** Image lines after a run of pieces join into the footer block. */
  lemma TailJoin(fs: seq<string>, footer: string, topic: string)
    requires |fs| >= 1
    ensures Join(fs + FooterLines(footer, topic), '\n') == Join(fs, '\n') + FooterBlock(footer, topic)
  {
    if footer != [] {
      var img := FooterImage(footer, topic);
      assert FooterLines(footer, topic) == [[], img];
      assert FooterBlock(footer, topic) == "\n\n" + img;
      JoinBeforeImage(fs, img);
    } else {
      assert fs + FooterLines(footer, topic) == fs;
    }
  }

  /** The document is the join of its lines: image lines, fragments, image
      lines. */
  lemma DocumentJoin(text: string, header: string, footer: string, topic: string)
    requires text != []
    ensures Join(HeaderLines(header, topic) + Fragments(text) + FooterLines(footer, topic), '\n') ==
            Document(text, header, footer, topic)
  {
    var hs, fs, ts := HeaderLines(header, topic), Fragments(text), FooterLines(footer, topic);
    HeadJoin(fs, header, topic);
    TailJoin(hs + fs, footer, topic);
  }

  /** Split on newlines, the HTML is the header image line and a blank line,
      then exactly the fragments of the view's nodes, then a blank line and the
      footer image line (image lines present only when set). */
  lemma DocumentLines(text: string, header: string, footer: string, topic: string)
    requires text != []
    requires '\n' !in header && '\n' !in footer && '\n' !in topic
    ensures Split(Document(text, header, footer, topic), '\n') ==
            HeaderLines(header, topic) + Fragments(text) + FooterLines(footer, topic)
  {
    var fs := Fragments(text);
    var lines := Split(text, '\n');
    forall i | 0 <= i < |fs| ensures '\n' !in fs[i] {
      FragmentHasNoNewline(lines[i]);
    }
    var hs, ts := HeaderLines(header, topic), FooterLines(footer, topic);
    ImageLinesHaveNoNewline(header, footer, topic);
    var all := hs + fs + ts;
    forall i | 0 <= i < |all| ensures '\n' !in all[i] {
      if i < |hs| { assert all[i] == hs[i]; }
      else if i < |hs| + |fs| { assert all[i] == fs[i - |hs|]; }
      else { assert all[i] == ts[i - |hs| - |fs|]; }
    }
    DocumentJoin(text, header, footer, topic);
    SplitJoin(all, '\n');
  }

  /** A string's second character is not the `i` of `<img`, and the
      character before its last is not the quote that ends an image tag's
      style. */
  predicate TagShaped(f: string) {
    |f| >= 4 && f[1] != 'i' && f[|f| - 2] != '"'
  }

  /** Every fragment is shaped so: its tags start `<h`, `<b`, `<l`, `<p` or are
      `<br>`, and its closing tags end in a letter or a digit before `>`. */
  lemma FragmentShape(n: Node)
    ensures TagShaped(Serialize(n))
  {
    TagFacts();
    var f := Serialize(n);
    match n
    case Br =>
    case H2(t) => assert f[|f| - 2] == H2Close[3];
    case H3(t) => assert f[|f| - 2] == H3Close[3];
    case Blockquote(t) => assert f[|f| - 2] == QuoteClose[11];
    case Li(t) => assert f[|f| - 2] == LiClose[3];
    case P(t) => assert f[|f| - 2] == PClose[2];
  }

  /** A join shows its first piece's characters at its start and its last
      piece's at its end, so a join of shaped pieces is shaped. */
  lemma JoinShaped(fs: seq<string>)
    requires |fs| >= 1 && forall i :: 0 <= i < |fs| ==> TagShaped(fs[i])
    ensures TagShaped(Join(fs, '\n'))
  {
    var body := Join(fs, '\n');
    JoinStartsWith(fs, '\n');
    JoinEndsWith(fs, '\n');
    var first, last := fs[0], fs[|fs| - 1];
    assert TagShaped(first) && TagShaped(last);
    assert body[..|first|][1] == first[1];
    assert body[|body| - |last|..][|last| - 2] == last[|last| - 2];
  }

  /** The body of any text starts and ends like a fragment. */
  lemma BodyEnds(text: string)
    ensures TagShaped(HtmlBody(text))
  {
    var lines := Split(text, '\n');
    var fs := Fragments(text);
    forall i | 0 <= i < |fs| ensures TagShaped(fs[i]) {
      FragmentShape(ViewLine(lines[i]));
    }
    JoinShaped(fs);
  }

  lemma ImgSrcOpensTag()
    ensures StartsWith(ImgSrc, "<img")
  {
    assert ImgSrc[..4] == "<img";
  }

  lemma FooterMarginClosesTag()
    ensures IsSuffix("\">", FooterMargin)
  {
    assert FooterMargin[|FooterMargin| - 2..] == "\">";
  }

  /** The header image fragment opens with `<img`. */
  lemma HeaderImageShape(url: string, topic: string)
    ensures StartsWith(HeaderImage(url, topic), "<img")
  {
    ImgSrcOpensTag();
    var h := ImgSrc;
    StartsWithAppend(h, url, "<img"); h := h + url;
    StartsWithAppend(h, ImgAlt, "<img"); h := h + ImgAlt;
    StartsWithAppend(h, topic, "<img"); h := h + topic;
    StartsWithAppend(h, HeaderAlt, "<img"); h := h + HeaderAlt;
    StartsWithAppend(h, ImgWidth, "<img"); h := h + ImgWidth;
    StartsWithAppend(h, ImgMaxWidth, "<img"); h := h + ImgMaxWidth;
    StartsWithAppend(h, ImgRadius, "<img"); h := h + ImgRadius;
    StartsWithAppend(h, HeaderMargin, "<img");
  }

  /** The footer image fragment ends with the quote and `>` that close its
      style. */
  lemma FooterImageShape(url: string, topic: string)
    ensures IsSuffix("\">", FooterImage(url, topic))
  {
    FooterMarginClosesTag();
    SuffixAppend(ImgSrc + url + ImgAlt + topic + FooterAlt + ImgWidth + ImgMaxWidth + ImgRadius, FooterMargin, "\">");
  }

  /** For a non-empty text, the HTML opens with an image tag exactly when a
      header image is set. */
  lemma DocumentHeaderIff(text: string, header: string, footer: string, topic: string)
    requires text != []
    ensures StartsWith(Document(text, header, footer, topic), "<img") <==> header != []
  {
    var d := Document(text, header, footer, topic);
    var body, tail := HtmlBody(text), FooterBlock(footer, topic);
    var head := HeaderBlock(header, topic);
    assert d == head + (body + tail);
    if header != [] {
      HeaderOpensDocument(header, topic, body + tail);
      assert StartsWith(d, "<img");
    } else {
      assert head == [];
      assert d == body + tail;
      BodyEnds(text);
      BodyOpensDocument(body, tail);
    }
  }

  /** With a header image the HTML opens with the image tag. */
  lemma HeaderOpensDocument(header: string, topic: string, rest: string)
    requires header != []
    ensures StartsWith(HeaderBlock(header, topic) + rest, "<img")
  {
    HeaderImageShape(header, topic);
    StartsWithAppend(HeaderImage(header, topic), "\n\n", "<img");
    StartsWithAppend(HeaderBlock(header, topic), rest, "<img");
  }

  /** A text that starts like the body is not an image tag. */
  lemma BodyOpensDocument(body: string, tail: string)
    requires TagShaped(body)
    ensures !StartsWith(body + tail, "<img")
  {
    assert (body + tail)[1] == body[1];
    assert "<img"[1] == 'i';
  }

  /** With a footer image the HTML ends with the close of the image tag. */
  lemma FooterClosesDocument(front: string, footer: string, topic: string)
    requires footer != []
    ensures IsSuffix("\">", front + FooterBlock(footer, topic))
  {
    FooterImageShape(footer, topic);
    SuffixAppend("\n\n", FooterImage(footer, topic), "\">");
    SuffixAppend(front, FooterBlock(footer, topic), "\">");
  }

  /** Without one it ends like the body, which is not an image tag's close. */
  lemma BodyClosesDocument(head: string, body: string)
    requires TagShaped(body)
    ensures !IsSuffix("\">", head + body)
  {
    var d := head + body;
    assert d[|d| - 2] == body[|body| - 2];
  }

  /** For a non-empty text, the HTML ends with the close of an image tag
      exactly when a footer image is set. */
  lemma DocumentFooterIff(text: string, header: string, footer: string, topic: string)
    requires text != []
    ensures IsSuffix("\">", Document(text, header, footer, topic)) <==> footer != []
  {
    var d := Document(text, header, footer, topic);
    var head, body := HeaderBlock(header, topic), HtmlBody(text);
    var tail := FooterBlock(footer, topic);
    assert d == (head + body) + tail;
    if footer != [] {
      FooterClosesDocument(head + body, footer, topic);
    } else {
      assert tail == [];
      assert d == head + body;
      BodyEnds(text);
      BodyClosesDocument(head, body);
    }
  }

  /** Without images the HTML is exactly the joined fragments; for the empty
      text it is empty even when images are set. */
  lemma DocumentWithoutImages(text: string, header: string, footer: string, topic: string)
    ensures text == [] ==> Document(text, header, footer, topic) == []
    ensures text != [] && header == [] && footer == [] ==> Document(text, header, footer, topic) == HtmlBody(text)
  {
  }
}
