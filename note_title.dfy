/** The title of a note (generate-tags.js, `extractTitle`): the first line
    that starts with `#`, without that `#` and the whitespace after it. */
module TitleExtraction {
  import opened Strings

  predicate IsHeading(line: string) {
    line != [] && line[0] == '#'
  }

  /** `lines.find(line => line.startsWith("#"))`, as an index, searching
      from `from` on. */
  function FirstHeading(lines: seq<string>, from: nat): (r: Option<nat>)
    requires from <= |lines|
    decreases |lines| - from
    ensures r.Some? ==> from <= r.value < |lines| && IsHeading(lines[r.value])
    ensures r.Some? ==> forall k :: from <= k < r.value ==> !IsHeading(lines[k])
    ensures r.None? ==> forall k :: from <= k < |lines| ==> !IsHeading(lines[k])
  {
    if from == |lines| then None
    else if IsHeading(lines[from]) then Some(from)
    else FirstHeading(lines, from + 1)
  }

  /** `line.replace(/^#\s*\/, "")` on a heading line: the `#` and the
      whitespace run right after it go, the rest of the line stays. */
  function StripHeadingMark(line: string): (r: string)
    requires IsHeading(line)
    ensures |r| < |line| && r == line[|line| - |r|..]
    ensures forall k :: 1 <= k < |line| - |r| ==> IsSpace(line[k])
    ensures r == [] || !IsSpace(r[0])
  {
    line[SkipSpace(line, 1)..]
  }

  /** `extractTitle`: the stripped first heading line, or `""`. */
  function ExtractTitle(content: string): (title: string)
    ensures title == [] || !IsSpace(title[0])
    ensures '\n' !in title
  {
    var lines := Split(content, '\n');
    match FirstHeading(lines, 0)
    case None => []
    case Some(i) =>
      var title := StripHeadingMark(lines[i]);
      assert forall k :: 0 <= k < |title| ==> title[k] == lines[i][|lines[i]| - |title| + k];
      title
  }

  /** A heading line `#` + whitespace + `title` gives back `title`, whatever
      `title` holds, further `#`s included, provided it does not start with
      whitespace. */
  lemma StripHeadingMarkOf(w: string, title: string)
    requires AllSpace(w)
    requires title == [] || !IsSpace(title[0])
    ensures StripHeadingMark("#" + w + title) == title
  {
    var line := "#" + w + title;
    var r := StripHeadingMark(line);
    assert r == line[1 + |w|..] == title;
  }

  lemma {:induction false} FirstHeadingIs(lines: seq<string>, from: nat, n: nat)
    requires from <= n < |lines|
    requires IsHeading(lines[n])
    requires forall k :: from <= k < n ==> !IsHeading(lines[k])
    ensures FirstHeading(lines, from) == Some(n)
    decreases n - from
  {
    if from < n {
      FirstHeadingIs(lines, from + 1, n);
    }
  }

  lemma TitleOfFirstHeading(content: string, i: nat)
    requires FirstHeading(Split(content, '\n'), 0) == Some(i)
    ensures ExtractTitle(content) == StripHeadingMark(Split(content, '\n')[i])
  {
  }

  /** Where the first line starting with `#` is `#`, whitespace `w`, then
      `title` (and `title` does not itself start with whitespace), the
      title is exactly `title`: one `#` goes, the rest stays. */
  lemma ExtractTitleOfLines(before: seq<string>, w: string, title: string, after: seq<string>)
    requires forall k :: 0 <= k < |before| ==> '\n' !in before[k] && !IsHeading(before[k])
    requires AllSpace(w) && '\n' !in w
    requires '\n' !in title && (title == [] || !IsSpace(title[0]))
    requires forall k :: 0 <= k < |after| ==> '\n' !in after[k]
    ensures ExtractTitle(Join(before + ["#" + w + title] + after, "\n")) == title
  {
    var line := "#" + w + title;
    var lines := before + [line] + after;
    LinesWithoutNewline(before, w, title, after);
    SplitJoin(lines, '\n');
    FirstHeadingIs(lines, 0, |before|);
    TitleOfFirstHeading(Join(lines, "\n"), |before|);
    StripHeadingMarkOf(w, title);
  }

  lemma LinesWithoutNewline(before: seq<string>, w: string, title: string, after: seq<string>)
    requires forall k :: 0 <= k < |before| ==> '\n' !in before[k] && !IsHeading(before[k])
    requires '\n' !in w && '\n' !in title
    requires forall k :: 0 <= k < |after| ==> '\n' !in after[k]
    ensures forall k :: 0 <= k < |before + ["#" + w + title] + after| ==> '\n' !in (before + ["#" + w + title] + after)[k]
    ensures forall k :: 0 <= k < |before| ==> !IsHeading((before + ["#" + w + title] + after)[k])
    ensures IsHeading((before + ["#" + w + title] + after)[|before|])
  {
    var line := "#" + w + title;
    var lines := before + [line] + after;
    assert '\n' !in line by {
      assert forall k :: 0 <= k < |line| ==> line[k] == if k == 0 then '#' else if k <= |w| then w[k - 1] else title[k - 1 - |w|];
    }
    forall k | 0 <= k < |lines|
      ensures '\n' !in lines[k]
    {
      if k < |before| {
        assert lines[k] == before[k];
      } else if k > |before| {
        assert lines[k] == after[k - |before| - 1];
      }
    }
  }

  /** `#` at the start of the text or right after a newline. */
  ghost predicate HashStartsLine(s: string, k: int) {
    0 <= k < |s| && s[k] == '#' && (k == 0 || s[k - 1] == '\n')
  }

  /** A line of the split that starts with `#` is a `#` at a line start
      of the text; the first line's is at position 0, later lines' are
      after a newline. */
  lemma {:induction false} HeadingLineStart(s: string, j: nat)
    requires j < |Split(s, '\n')| && IsHeading(Split(s, '\n')[j])
    ensures exists k :: HashStartsLine(s, k) && (j == 0 <==> k == 0)
  {
    if s != [] {
      var rest := Split(s[1..], '\n');
      if s[0] == '\n' {
        assert Split(s, '\n') == [[]] + rest;
        HeadingLineStart(s[1..], j - 1);
        var k' :| HashStartsLine(s[1..], k') && (j - 1 == 0 <==> k' == 0);
        assert HashStartsLine(s, k' + 1);
      } else if j == 0 {
        assert HashStartsLine(s, 0);
      } else {
        assert Split(s, '\n')[j] == rest[j];
        HeadingLineStart(s[1..], j);
        var k' :| HashStartsLine(s[1..], k') && k' != 0;
        assert HashStartsLine(s, k' + 1);
      }
    }
  }

  /** Text in which no line starts with `#` has the empty title. */
  lemma NoHeadingNoTitle(content: string)
    requires forall k :: 0 <= k < |content| && content[k] == '#' ==> k > 0 && content[k - 1] != '\n'
    ensures ExtractTitle(content) == []
  {
    var lines := Split(content, '\n');
    if FirstHeading(lines, 0).Some? {
      HeadingLineStart(content, FirstHeading(lines, 0).value);
    }
  }

  /** `## Foo` is a heading whose title keeps its second `#`. */
  lemma ExtractTitleKeepsSecondHash()
    ensures ExtractTitle("## Foo") == "# Foo"
  {
    var line := "#" + "" + "# Foo";
    assert line == "## Foo";
    var lines: seq<string> := [] + [line] + [];
    assert lines == ["## Foo"];
    assert Join(lines, "\n") == "## Foo";
    ExtractTitleOfLines([], "", "# Foo", []);
  }
}
