/** Parsing the keyword reply: `content.split("\n").filter((k) => k.trim())`. */
module Keywords {
  import opened Strings

  /** The entries of `lines` whose `trim()` is not empty, in order and
      untrimmed. */
  function NonBlank(lines: seq<string>): (r: seq<string>)
    ensures |r| <= |lines|
    ensures forall i :: 0 <= i < |r| ==> !IsBlank(r[i]) && r[i] in lines
  {
    if lines == [] then []
    else
      var rest := NonBlank(lines[1..]);
      if IsBlank(lines[0]) then rest else [lines[0]] + rest
  }

  /** `xs` can be obtained from `ys` by deleting elements. */
  predicate IsSubsequence(xs: seq<string>, ys: seq<string>)
    decreases |ys|
  {
    if xs == [] then true
    else if ys == [] then false
    else if xs[0] == ys[0] then IsSubsequence(xs[1..], ys[1..])
    else IsSubsequence(xs, ys[1..])
  }

  /** The keyword list of a reply: one entry per line of the reply that is not
      blank. Entries carry no newline and are never blank. */
  function ParseKeywords(content: string): (ks: seq<string>)
    ensures forall i :: 0 <= i < |ks| ==> !IsBlank(ks[i]) && '\n' !in ks[i]
    ensures |ks| <= Count(content, '\n') + 1
  {
    var lines := Split(content, '\n');
    SplitLength(content, '\n');
    NonBlank(lines)
  }

  /** Filtering keeps the order: the result is a subsequence of the lines. */
  lemma {:induction false} NonBlankIsSubsequence(lines: seq<string>)
    ensures IsSubsequence(NonBlank(lines), lines)
    decreases |lines|
  {
    if lines != [] {
      NonBlankIsSubsequence(lines[1..]);
      var rest := NonBlank(lines[1..]);
      assert IsBlank(lines[0]) && rest != [] ==> rest[0] != lines[0];
    }
  }

  /** Filtering keeps duplicates: every line that is not blank is kept as
      many times as it occurs, and a blank one not at all. */
  lemma {:induction false} NonBlankCounts(lines: seq<string>)
    ensures forall x :: multiset(NonBlank(lines))[x] == if IsBlank(x) then 0 else multiset(lines)[x]
    decreases |lines|
  {
    if lines != [] {
      NonBlankCounts(lines[1..]);
      assert lines == [lines[0]] + lines[1..];
      assert multiset(lines) == multiset([lines[0]]) + multiset(lines[1..]);
      if !IsBlank(lines[0]) {
        var r := NonBlank(lines);
        assert multiset(r) == multiset([lines[0]]) + multiset(NonBlank(lines[1..]));
      }
    }
  }

  /** Filtering is decided line by line: the filter of a concatenation is the
      concatenation of the filters. */
  lemma {:induction false} NonBlankAppend(xs: seq<string>, ys: seq<string>)
    ensures NonBlank(xs + ys) == NonBlank(xs) + NonBlank(ys)
    decreases |xs|
  {
    if xs == [] {
      assert xs + ys == ys;
    } else {
      assert (xs + ys)[1..] == xs[1..] + ys;
      NonBlankAppend(xs[1..], ys);
    }
  }

  /** A line that is not blank is kept, a blank one is dropped. */
  lemma NonBlankSingle(x: string)
    ensures NonBlank([x]) == if IsBlank(x) then [] else [x]
  {
    assert [x][1..] == [];
  }

  /** Every line with some non-whitespace character survives. */
  lemma {:induction false} NonBlankKeepsEveryKeyword(lines: seq<string>, i: nat)
    requires i < |lines| && !IsBlank(lines[i])
    ensures lines[i] in NonBlank(lines)
    decreases |lines|
  {
    if i > 0 {
      NonBlankKeepsEveryKeyword(lines[1..], i - 1);
      assert lines[1..][i - 1] == lines[i];
    }
  }

  /** Filtering twice is filtering once. */
  lemma {:induction false} NonBlankIdempotent(lines: seq<string>)
    ensures NonBlank(NonBlank(lines)) == NonBlank(lines)
    decreases |lines|
  {
    if lines != [] {
      NonBlankIdempotent(lines[1..]);
      var rest := NonBlank(lines[1..]);
      if !IsBlank(lines[0]) {
        assert ([lines[0]] + rest)[1..] == rest;
      }
    }
  }

  /** Keywords joined with newlines, as the article request sends them,
      parse back to the same list. */
  lemma {:induction false} ParseJoinedKeywords(ks: seq<string>)
    requires |ks| >= 1
    requires forall i :: 0 <= i < |ks| ==> !IsBlank(ks[i]) && '\n' !in ks[i]
    ensures ParseKeywords(Join(ks, '\n')) == ks
  {
    SplitJoin(ks, '\n');
    NonBlankOfNonBlank(ks);
  }

  lemma {:induction false} NonBlankOfNonBlank(ks: seq<string>)
    requires forall i :: 0 <= i < |ks| ==> !IsBlank(ks[i])
    ensures NonBlank(ks) == ks
    decreases |ks|
  {
    if ks != [] {
      var tail := ks[1..];
      assert forall i :: 0 <= i < |tail| ==> tail[i] == ks[i + 1];
      NonBlankOfNonBlank(tail);
      assert [ks[0]] + tail == ks;
    }
  }

  /** A reply of blank lines only gives no keywords. */
  lemma {:induction false} NonBlankEmptyIff(lines: seq<string>)
    ensures NonBlank(lines) == [] <==> forall i :: 0 <= i < |lines| ==> IsBlank(lines[i])
    decreases |lines|
  {
    if lines != [] {
      NonBlankEmptyIff(lines[1..]);
      if IsBlank(lines[0]) {
        assert (forall i :: 0 <= i < |lines| ==> IsBlank(lines[i])) <==>
               (forall i :: 0 <= i < |lines[1..]| ==> IsBlank(lines[1..][i]));
      }
    }
  }
}
