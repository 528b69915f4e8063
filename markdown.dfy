/** The line classifier shared by both renderers of the article page: the
    ordered chain of prefix tests that decides what one line of the generated
    article is. */
module Markdown {
  import opened Strings

  datatype LineKind =
    | Heading        // "# "
    | Subheading     // "## "
    | Quote          // "> "
    | UnorderedItem  // "- "
    | OrderedItem    // /^\d+\.\s/
    | Blank          // trim() is empty
    | Paragraph      // anything else

  /** A classified line: its kind and the text the renderers show for it. */
  datatype Line = Line(kind: LineKind, text: string)

  /** Length of the run of ASCII digits that starts the line. */
  function DigitRun(s: string): (n: nat)
    ensures n <= |s|
    ensures forall i :: 0 <= i < n ==> IsDigit(s[i])
    ensures n < |s| ==> !IsDigit(s[n])
    decreases |s|
  {
    if s != [] && IsDigit(s[0]) then 1 + DigitRun(s[1..]) else 0
  }

  /** The test `/^\d+\.\s/.test(line)`, computed from the maximal digit run. */
  predicate OrderedMarker(line: string) {
    var n := DigitRun(line);
    1 <= n && n + 1 < |line| && line[n] == '.' && IsWs(line[n + 1])
  }

  /** The regular expression read literally: some number `k >= 1` of digits,
      then a dot, then one whitespace character. */
  predicate MarkerAt(line: string, k: int) {
    1 <= k && k + 1 < |line| &&
    (forall i :: 0 <= i < k ==> IsDigit(line[i])) &&
    line[k] == '.' && IsWs(line[k + 1])
  }

  ghost predicate MatchesOrderedPattern(line: string) {
    exists k :: MarkerAt(line, k)
  }

  /** The computed test agrees with the pattern: a dot is not a digit, so the
      only split the regular expression can use is the maximal digit run. */
  lemma OrderedMarkerIff(line: string)
    ensures OrderedMarker(line) <==> MatchesOrderedPattern(line)
  {
    var n := DigitRun(line);
    if OrderedMarker(line) {
      assert MarkerAt(line, n);
    }
    if MatchesOrderedPattern(line) {
      var k :| MarkerAt(line, k);
      assert !IsDigit(line[k]);
      assert k == n;
    }
  }

  /** The chain of `page.jsx`, first match wins. The ordered-item text is
      `line.slice(line.indexOf(" ") + 1)`. */
  function Classify(line: string): (c: Line)
    ensures IsSuffix(c.text, line)
  {
    if StartsWith(line, "# ") then Line(Heading, line[2..])
    else if StartsWith(line, "## ") then Line(Subheading, line[3..])
    else if StartsWith(line, "> ") then Line(Quote, line[2..])
    else if StartsWith(line, "- ") then Line(UnorderedItem, line[2..])
    else if OrderedMarker(line) then Line(OrderedItem, SliceFrom(line, IndexOf(line, ' ') + 1))
    else if IsBlank(line) then Line(Blank, [])
    else Line(Paragraph, line)
  }

  /** A line starting with a two-character marker, spelt out by character. */
  lemma StartsWithPair(line: string, m: string)
    requires |m| == 2
    ensures StartsWith(line, m) <==> |line| >= 2 && line[0] == m[0] && line[1] == m[1]
  {
    if |line| >= 2 && line[0] == m[0] && line[1] == m[1] {
      assert line[..2] == m;
    }
  }

  /** The four prefix markers exclude each other: each starts with a different
      character except "# " and "## ", which differ in the second. */
  lemma MarkersExclusive(line: string)
    ensures StartsWith(line, "## ") ==> line[0] == '#' && line[1] == '#' && !StartsWith(line, "# ")
    ensures StartsWith(line, "# ") ==> line[0] == '#'
    ensures StartsWith(line, "> ") ==> line[0] == '>'
    ensures StartsWith(line, "- ") ==> line[0] == '-'
  {
    StartsWithPair(line, "# ");
    StartsWithPair(line, "> ");
    StartsWithPair(line, "- ");
    if StartsWith(line, "## ") {
      assert line[..3][1] == '#';
    }
  }

  /** Neither an ordered-item line nor any marker line is blank: digits and
      marker characters are not whitespace. */
  lemma BlankExcludesMarkers(line: string)
    requires line != [] && (IsDigit(line[0]) || line[0] in "#>-")
    ensures !AllWs(line)
  {
    assert !IsWs(line[0]);
  }

  /** Each kind is decided by its own test alone: the markers start with
      different characters, none of them whitespace, so the order of the chain
      never matters and a line starting "## " is never a heading. */
  lemma ClassifyMarkerKinds(line: string)
    ensures Classify(line).kind == Heading <==> StartsWith(line, "# ")
    ensures Classify(line).kind == Subheading <==> StartsWith(line, "## ")
    ensures Classify(line).kind == Quote <==> StartsWith(line, "> ")
    ensures Classify(line).kind == UnorderedItem <==> StartsWith(line, "- ")
  {
    MarkersExclusive(line);
  }

  /** Ordered items, blank lines and paragraphs, by their own tests alone. */
  lemma ClassifyOtherKinds(line: string)
    ensures Classify(line).kind == OrderedItem <==> MatchesOrderedPattern(line)
    ensures Classify(line).kind == Blank <==> AllWs(line)
    ensures Classify(line).kind == Paragraph <==>
      !StartsWith(line, "# ") && !StartsWith(line, "## ") && !StartsWith(line, "> ") &&
      !StartsWith(line, "- ") && !MatchesOrderedPattern(line) && !AllWs(line)
  {
    MarkersExclusive(line);
    OrderedMarkerIff(line);
    TrimEmptyIff(line);
    var marked := StartsWith(line, "# ") || StartsWith(line, "## ") || StartsWith(line, "> ") ||
                  StartsWith(line, "- ") || OrderedMarker(line);
    if marked {
      BlankExcludesMarkers(line);
    }
  }

  /** The text each kind carries: the line after its marker, nothing for a
      blank line, the whole line for a paragraph. */
  lemma ClassifyText(line: string)
    ensures StartsWith(line, "# ") ==> Classify(line).text == line[2..]
    ensures StartsWith(line, "## ") ==> Classify(line).text == line[3..]
    ensures StartsWith(line, "> ") ==> Classify(line).text == line[2..]
    ensures StartsWith(line, "- ") ==> Classify(line).text == line[2..]
    ensures Classify(line).kind == Blank ==> Classify(line).text == []
    ensures Classify(line).kind == Paragraph ==> Classify(line).text == line
  {
    MarkersExclusive(line);
  }

  /** An ordered item shows what follows the first space of the line, or the
      whole line when it holds no space (the whitespace after the dot may be a
      tab, which `indexOf(" ")` does not find). */
  lemma OrderedItemText(line: string)
    requires Classify(line).kind == OrderedItem
    ensures ' ' in line ==> exists k :: 0 <= k < |line| && line[k] == ' ' && ' ' !in line[..k] &&
                                      Classify(line).text == line[k + 1..]
    ensures ' ' !in line ==> Classify(line).text == line
  {
    OrderedItemSlice(line);
    var k := IndexOf(line, ' ');
    if k >= 0 {
      assert line[k] == ' ' && ' ' !in line[..k] && Classify(line).text == line[k + 1..];
    }
  }

  /** The text of an ordered item is the line after its first space. */
  lemma OrderedItemSlice(line: string)
    requires Classify(line).kind == OrderedItem
    ensures Classify(line).text == SliceFrom(line, IndexOf(line, ' ') + 1)
  {
    var marked := StartsWith(line, "# ") || StartsWith(line, "## ") ||
                  StartsWith(line, "> ") || StartsWith(line, "- ");
    assert !marked;
    assert OrderedMarker(line);
  }

  /** A subheading whose text looks like an ordered item is still a
      subheading. */
  lemma SubheadingBeforeOrdered()
    ensures Classify("## 2. Heading") == Line(Subheading, "2. Heading")
  {
    assert StartsWith("## 2. Heading", "## ");
    assert !StartsWith("## 2. Heading", "# ") by {
      assert "## 2. Heading"[1] != "# "[1];
    }
  }

  /** With a tab after the dot the marker is kept in the item's text. */
  lemma OrderedItemAfterTab()
    ensures Classify("1.\tfirst") == Line(OrderedItem, "1.\tfirst")
  {
    var a := "1.\tfirst";
    MarkersExclusive(a);
    assert a[0] == '1' && a[1] == '.' && a[2] == '\t';
    assert DigitRun(a[1..]) == 0;
    assert OrderedMarker(a);
    assert forall i :: 0 <= i < |a| ==> a[i] != ' ';
    assert IndexOf(a, ' ') == -1;
  }

  /** With a tab after the dot and a later space, everything up to that space
      is dropped. */
  lemma OrderedItemAfterTabLosesText()
    ensures Classify("1.\tone two") == Line(OrderedItem, "two")
  {
    var b := "1.\tone two";
    MarkersExclusive(b);
    assert b[0] == '1' && b[1] == '.' && b[2] == '\t';
    assert DigitRun(b[1..]) == 0;
    assert OrderedMarker(b);
    assert b[6] == ' ';
    assert ' ' !in b[..6];
    assert IndexOf(b, ' ') == 6;
    assert b[7..] == "two";
  }
}
