/** Worked examples of the article view on concrete lines. */
module Scenarios {
  import opened Wrappers
  import opened Strings
  import opened Markdown
  import opened Render

  /** A line made of a two-character marker and its text. */
  lemma MarkerLine(a: string)
    requires |a| >= 2 && a[1] == ' ' && (a[0] == '#' || a[0] == '>' || a[0] == '-')
    ensures ViewLine(a) == (if a[0] == '#' then H2(a[2..]) else if a[0] == '>' then Blockquote(a[2..]) else Li(a[2..]))
  {
    StartsWithPair(a, "# ");
    StartsWithPair(a, "> ");
    StartsWithPair(a, "- ");
    ClassifyMarkerKinds(a);
    ClassifyText(a);
  }

  /** Lines of a typical generated article and the nodes they render to. */
  lemma IntroLine()
    ensures ViewLine("# Intro") == H2("Intro")
  {
    var a := "# Intro";
    MarkerLine(a);
    assert a[2..] == "Intro";
  }

  lemma FirstItemLine()
    ensures ViewLine("- item one") == Li("item one")
  {
    var a := "- item one";
    MarkerLine(a);
    assert a[2..] == "item one";
  }

  lemma SecondItemLine()
    ensures ViewLine("- item two") == Li("item two")
  {
    var a := "- item two";
    MarkerLine(a);
    assert a[2..] == "item two";
  }

  lemma QuoteLine()
    ensures ViewLine("> a quote") == Blockquote("a quote")
  {
    var a := "> a quote";
    MarkerLine(a);
    assert a[2..] == "a quote";
  }

  lemma BlankLine()
    ensures ViewLine("") == Br
  {
    TrimEmptyIff("");
    ClassifyOtherKinds("");
  }

  /** A one-digit ordered item whose text has no space shows that text. */
  lemma OrderedLine(a: string, d: char, t: string)
    requires IsDigit(d) && ' ' !in t
    requires a == [d, '.', ' '] + t
    ensures ViewLine(a) == Li(t)
  {
    MarkersExclusive(a);
    assert MatchesOrderedPattern(a) by {
      assert MarkerAt(a, 1);
    }
    ClassifyOtherKinds(a);
    OrderedItemText(a);
    assert a[2] == ' ';
    var k :| 0 <= k < |a| && a[k] == ' ' && ' ' !in a[..k] && Classify(a).text == a[k + 1..];
    assert k == 2 by {
      assert a[k] != d && a[k] != '.';
    }
    assert a[3..] == t;
  }

  lemma ParagraphLine()
    ensures ViewLine("Some text") == P("Some text")
  {
    var p := "Some text";
    MarkersExclusive(p);
    assert p[0] == 'S';
    assert !MatchesOrderedPattern(p) by {
      OrderedMarkerIff(p);
      assert DigitRun(p) == 0;
    }
    assert !AllWs(p) by {
      assert !IsWs(p[0]);
    }
    ClassifyOtherKinds(p);
    ClassifyText(p);
  }

  /** A text renders to the nodes of its lines, one by one. */
  lemma ViewOfLines(text: string, ns: seq<Node>)
    requires text != [] && |Split(text, '\n')| == |ns|
    requires forall i :: 0 <= i < |ns| ==> ViewLine(Split(text, '\n')[i]) == ns[i]
    ensures ViewRender(text) == Some(ns)
  {
    var r := ViewRender(text);
    assert r.value == ns;
  }

  /** Leading, consecutive and trailing newlines each give a break of their
      own. */
  lemma BlankLinesKept(text: string)
    requires text != [] && Split(text, '\n') == ["", "", ""]
    ensures ViewRender(text) == Some([Br, Br, Br])
  {
    var r := ViewRender(text);
    var ls := Split(text, '\n');
    assert |r.value| == 3;
    forall i | 0 <= i < 3
      ensures r.value[i] == Br
    {
      assert ls[i] == "";
      assert r.value[i] == NodeOf(Classify(ls[i]));
      BlankLine();
    }
    assert r.value == [Br, Br, Br];
  }

  lemma TwoNewlines()
    ensures ViewRender("\n\n") == Some([Br, Br, Br])
  {
    var ls: seq<string> := ["", "", ""];
    assert Join(ls[2..], '\n') == "";
    assert Join(ls[1..], '\n') == "\n";
    assert Join(ls, '\n') == "\n\n";
    SplitJoin(ls, '\n');
    BlankLinesKept("\n\n");
  }

  /** The lines of a short article with every kind of line in it. */
  const ArticleLines: seq<string> :=
    ["# Intro", "", "Some text", "- item one", "- item two", "> a quote", "1. first", "2. second"]

  /** The article's text, its lines joined by newlines, splits back into
      those lines. */
  lemma ArticleTextLines()
    ensures Split(Join(ArticleLines, '\n'), '\n') == ArticleLines
  {
    var ls := ArticleLines;
    forall i | 0 <= i < |ls| ensures '\n' !in ls[i] {
    }
    SplitJoin(ls, '\n');
  }

  /** The nodes of the article, one per line. */
  const ArticleNodes: seq<Node> :=
    [H2("Intro"), Br, P("Some text"), Li("item one"), Li("item two"),
     Blockquote("a quote"), Li("first"), Li("second")]

  /** Each line of the article renders to its node. */
  lemma ArticleLineByLine()
    ensures forall i :: 0 <= i < |ArticleLines| ==> ViewLine(ArticleLines[i]) == ArticleNodes[i]
  {
    forall i | 0 <= i < |ArticleLines| ensures ViewLine(ArticleLines[i]) == ArticleNodes[i] {
      ArticleLine(i);
    }
  }

  /** Line `i` of the article renders to node `i`. */
  lemma ArticleLine(i: nat)
    requires i < |ArticleLines|
    ensures ViewLine(ArticleLines[i]) == ArticleNodes[i]
  {
    var l, n := ArticleLines[i], ArticleNodes[i];
    match i
    case 0 => assert l == "# Intro" && n == H2("Intro"); IntroLine();
    case 1 => assert l == "" && n == Br; BlankLine();
    case 2 => assert l == "Some text" && n == P("Some text"); ParagraphLine();
    case 3 => assert l == "- item one" && n == Li("item one"); FirstItemLine();
    case 4 => assert l == "- item two" && n == Li("item two"); SecondItemLine();
    case 5 => assert l == "> a quote" && n == Blockquote("a quote"); QuoteLine();
    case 6 => assert l == "1. first" && n == Li("first"); OrderedLine(l, '1', "first");
    case 7 => assert l == "2. second" && n == Li("second"); OrderedLine(l, '2', "second");
  }

  /** A text with the article's lines renders to a heading, a break, a
      paragraph, two unordered items, a quote and two ordered items, in that
      order; its HTML body has one fragment per node, in the same order. */
  lemma ArticleRenders(text: string)
    requires Split(text, '\n') == ArticleLines
    ensures ViewRender(text) == Some(ArticleNodes)
    ensures Split(HtmlBody(text), '\n') == seq(|ArticleNodes|, i requires 0 <= i < |ArticleNodes| => Serialize(ArticleNodes[i]))
  {
    ArticleLineByLine();
    assert text != [];
    ViewOfLines(text, ArticleNodes);
    RenderersAgree(text);
  }

  /** The article `"# Intro\n\nSome text\n- item one\n- item two\n> a quote\n1. first\n2. second"`,
      written as the join of its lines, renders so. */
  lemma ArticleView()
    ensures ViewRender(Join(ArticleLines, '\n')) == Some(ArticleNodes)
  {
    ArticleTextLines();
    ArticleRenders(Join(ArticleLines, '\n'));
  }
}
