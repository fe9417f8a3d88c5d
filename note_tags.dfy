/** The tag list of a note (generate-tags.js, `extractTagsFromContent`): the
    text after the first `**Tags:**` up to the end of its line, split on `#`,
    each piece trimmed, empty pieces dropped. */
module TagExtraction {
  import opened Strings

  const TagsMarker: string := "**Tags:**"

  // ------------------------------------------------------------------ tags

  /** `.map(tag => tag.trim()).filter(tag => tag !== "")`. */
  function CleanFragments(frags: seq<string>): (tags: seq<string>)
    ensures |tags| <= |frags|
    ensures forall k :: 0 <= k < |tags| ==> tags[k] != [] && IsTrimmed(tags[k])
  {
    if frags == [] then []
    else
      var t := Trim(frags[0]);
      var rest := CleanFragments(frags[1..]);
      if t == [] then rest else [t] + rest
  }

  /** Cleaning a concatenation cleans each part: fragments keep their order. */
  lemma {:induction false} CleanFragmentsAppend(a: seq<string>, b: seq<string>)
    ensures CleanFragments(a + b) == CleanFragments(a) + CleanFragments(b)
  {
    if a != [] {
      assert (a + b)[0] == a[0];
      assert (a + b)[1..] == a[1..] + b;
      CleanFragmentsAppend(a[1..], b);
      var t := Trim(a[0]);
      if t != [] {
        assert CleanFragments(a + b) == [t] + (CleanFragments(a[1..]) + CleanFragments(b));
        assert [t] + (CleanFragments(a[1..]) + CleanFragments(b)) == ([t] + CleanFragments(a[1..])) + CleanFragments(b);
      }
    } else {
      assert a + b == b;
    }
  }

  /** One fragment gives its trim, or nothing when the trim is empty. */
  lemma CleanFragmentsOne(f: string)
    ensures CleanFragments([f]) == if Trim(f) == [] then [] else [Trim(f)]
  {
    assert [f][1..] == [];
  }

  /** No character of `banned` appears in the string. */
  predicate Avoids(s: string, banned: set<char>) {
    forall k :: 0 <= k < |s| ==> s[k] !in banned
  }

  /** Cleaning introduces no character that no fragment had. */
  lemma {:induction false} CleanFragmentsAvoid(frags: seq<string>, banned: set<char>)
    requires forall j :: 0 <= j < |frags| ==> Avoids(frags[j], banned)
    ensures forall k :: 0 <= k < |CleanFragments(frags)| ==> Avoids(CleanFragments(frags)[k], banned)
  {
    if frags != [] {
      CleanFragmentsAvoid(frags[1..], banned);
      var t := Trim(frags[0]);
      TrimChars(frags[0]);
      assert Avoids(t, banned) by {
        forall k | 0 <= k < |t|
          ensures t[k] !in banned
        {
          assert t[k] in frags[0];
        }
      }
    }
  }

  /** Fragments that are already tags survive cleaning unchanged. */
  lemma CleanFragmentsOfTags(tags: seq<string>)
    requires forall k :: 0 <= k < |tags| ==> tags[k] != [] && IsTrimmed(tags[k])
    ensures CleanFragments(tags) == tags
  {
    forall k | 0 <= k < |tags|
      ensures Trim(tags[k]) == tags[k]
    {
      TrimOfTrimmed(tags[k]);
    }
    CleanFragmentsFixed(tags);
  }

  lemma {:induction false} CleanFragmentsFixed(tags: seq<string>)
    requires forall k :: 0 <= k < |tags| ==> tags[k] != [] && Trim(tags[k]) == tags[k]
    ensures CleanFragments(tags) == tags
  {
    if tags != [] {
      CleanFragmentsFixed(tags[1..]);
      assert CleanFragments(tags) == [tags[0]] + tags[1..];
    }
  }

  /** Trimming text without whitespace at its ends changes nothing. */
  lemma TrimOfTrimmed(s: string)
    requires s != [] && IsTrimmed(s)
    ensures Trim(s) == s
  {
    var r := Trim(s);
    var lead: nat :| StripsTo(s, lead, r);
    assert lead == 0;
  }

  /** `content.match(/\*\*Tags:\*\*(.*)/)`: the rest of the line after the
      first marker, or nothing when there is no marker. */
  function TagLine(content: string): (r: Option<string>)
    ensures r.None? <==> !Contains(content, TagsMarker)
    ensures r.Some? ==> OnOneLine(r.value)
  {
    match IndexOf(content, TagsMarker)
    case None => None
    case Some(i) => Some(RestOfLine(content[i + |TagsMarker|..]))
  }

  /** What the group captures: the rest of the line that follows the first
      `**Tags:**`, wherever in its line that marker stands. */
  lemma TagLineOfFirstMarker(content: string, i: nat)
    requires OccursAt(content, TagsMarker, i)
    requires forall j: nat :: j < i ==> !OccursAt(content, TagsMarker, j)
    ensures TagLine(content) == Some(RestOfLine(content[i + |TagsMarker|..]))
  {
    var k := IndexOf(content, TagsMarker);
    assert k == Some(i);
  }

  /** No marker starts inside `before`, not even one that runs on into the
      marker that follows it. */
  predicate NoMarkerBefore(before: string) {
    forall j: nat :: j < |before| ==> !OccursAt(before + TagsMarker, TagsMarker, j)
  }

  /** `extractTagsFromContent`: the tags of the first `**Tags:**` line. */
  function ExtractTags(content: string): (tags: seq<string>)
    ensures !Contains(content, TagsMarker) ==> tags == []
    ensures forall k :: 0 <= k < |tags| ==> tags[k] != [] && IsTrimmed(tags[k])
    ensures forall k :: 0 <= k < |tags| ==> '#' !in tags[k] && OnOneLine(tags[k])
  {
    match TagLine(content)
    case None => []
    case Some(line) =>
      TagsOfLineAvoid(line);
      CleanFragments(Split(line, '#'))
  }

  const TagBreakers: set<char> := {'#', '\n', '\r', '\U{2028}', '\U{2029}'}

  lemma TagsOfLineAvoid(line: string)
    requires OnOneLine(line)
    ensures forall k :: 0 <= k < |CleanFragments(Split(line, '#'))| ==>
      Avoids(CleanFragments(Split(line, '#'))[k], TagBreakers)
  {
    var frags := Split(line, '#');
    JoinSplit(line, '#');
    forall j, k | 0 <= j < |frags| && 0 <= k < |frags[j]|
      ensures frags[j][k] !in TagBreakers
    {
      PiecesOfJoin(frags, "#", j);
      assert frags[j][k] in line;
    }
    CleanFragmentsAvoid(frags, TagBreakers);
  }

  /** Where the first `**Tags:**` is preceded by `before` and followed by
      the fragments joined by `#` up to the end of its line, the tags are
      those fragments trimmed, empty ones dropped, in their left-to-right
      order; what precedes the marker on its line and everything after the
      line (later markers included) do not matter. */
  lemma ExtractTagsOfLine(before: string, frags: seq<string>, after: string)
    requires NoMarkerBefore(before)
    requires |frags| >= 1
    requires forall k :: 0 <= k < |frags| ==> '#' !in frags[k] && OnOneLine(frags[k])
    requires after == [] || IsLineTerminator(after[0])
    ensures ExtractTags(before + TagsMarker + Join(frags, "#") + after) == CleanFragments(frags)
  {
    JoinOnOneLine(frags, '#');
    TagsAfterMarker(before, Join(frags, "#"), after);
    SplitJoin(frags, '#');
  }

  /** The tags come from the rest of the line that follows the first marker. */
  lemma TagsAfterMarker(before: string, line: string, after: string)
    requires NoMarkerBefore(before)
    requires OnOneLine(line)
    requires after == [] || IsLineTerminator(after[0])
    ensures ExtractTags(before + TagsMarker + line + after) == CleanFragments(Split(line, '#'))
  {
    var s := before + TagsMarker + (line + after);
    assert before + TagsMarker + line + after == s;
    MarkerFirstAt(before, line + after);
    assert s[|before| + |TagsMarker|..] == line + after;
    RestOfLineStops(line, after);
    assert TagLine(s) == Some(line);
  }

  /** The marker after a text in which no marker starts is the first match. */
  lemma MarkerFirstAt(before: string, rest: string)
    requires NoMarkerBefore(before)
    ensures IndexOf(before + TagsMarker + rest, TagsMarker) == Some(|before|)
  {
    var s := before + TagsMarker + rest;
    var p := before + TagsMarker;
    var n := |before|;
    assert OccursAt(s, TagsMarker, n) by {
      assert s[n..n + |TagsMarker|] == TagsMarker;
    }
    forall j: nat | j < n
      ensures !OccursAt(s, TagsMarker, j)
    {
      assert !OccursAt(p, TagsMarker, j);
      assert s[j..j + |TagsMarker|] == p[j..j + |TagsMarker|];
    }
  }

  /** A marker starting a line: any marker-free text ending in a line
      terminator may precede it. */
  lemma NoMarkerBeforeLineStart(before: string)
    requires !Contains(before, TagsMarker)
    requires before == [] || IsLineTerminator(before[|before| - 1])
    ensures NoMarkerBefore(before)
  {
    var p := before + TagsMarker;
    var n := |before|;
    forall j: nat | j < n
      ensures !OccursAt(p, TagsMarker, j)
    {
      if j + |TagsMarker| <= n {
        assert p[j..j + |TagsMarker|] == before[j..j + |TagsMarker|];
        assert !OccursAt(before, TagsMarker, j);
      } else {
        assert p[n - 1] == before[n - 1];
        assert p[j..j + |TagsMarker|][n - 1 - j] == p[n - 1];
      }
    }
  }

  lemma {:induction false} JoinOnOneLine(frags: seq<string>, sep: char)
    requires !IsLineTerminator(sep)
    requires forall k :: 0 <= k < |frags| ==> OnOneLine(frags[k])
    ensures OnOneLine(Join(frags, [sep]))
  {
    if |frags| > 1 {
      JoinOnOneLine(frags[1..], sep);
    }
  }

  /** The quirk of splitting on `#`: a fragment before the first `#` is a tag too. */
  lemma ExtractTagsLeadingFragment()
    ensures ExtractTags(TagsMarker + "intro #alpha") == ["intro", "alpha"]
  {
    var frags := ["intro ", "alpha"];
    assert Join(frags, "#") == "intro #alpha";
    assert NoMarkerBefore([]);
    assert forall k :: 0 <= k < |frags| ==> '#' !in frags[k] && OnOneLine(frags[k]);
    ExtractTagsOfLine([], frags, []);
    EmptyAround(TagsMarker, "intro #alpha");
    CleanIntroAlpha();
  }

  /** A marker in the middle of a line, here after a list bullet, is found
      all the same. */
  lemma ExtractTagsMidLine()
    ensures ExtractTags("- " + TagsMarker + " #a") == ["a"]
  {
    var frags := [" ", "a"];
    assert Join(frags, "#") == " #a";
    assert NoMarkerBefore("- ") by {
      var p := "- " + TagsMarker;
      assert p[0] != TagsMarker[0] && p[1] != TagsMarker[0];
      forall j: nat | j < 2
        ensures !OccursAt(p, TagsMarker, j)
      {
        assert p[j..j + |TagsMarker|][0] == p[j];
      }
    }
    assert forall k :: 0 <= k < |frags| ==> '#' !in frags[k] && OnOneLine(frags[k]);
    ExtractTagsOfLine("- ", frags, []);
    NoneAfter("- " + TagsMarker + " #a");
    CleanSpaceA();
  }

  lemma CleanSpaceA()
    ensures CleanFragments([" ", "a"]) == ["a"]
  {
    assert SkipSpace(" ", 0) == 1;
    assert Trim(" ") == [];
    TrimOfTrimmed("a");
    assert [" ", "a"][1..] == ["a"];
    assert CleanFragments(["a"]) == ["a"] + CleanFragments([]);
  }

  // Only guides the solver: empty texts around a concatenation vanish.
  lemma EmptyAround<T>(a: seq<T>, b: seq<T>)
    ensures [] + a + b + [] == a + b
  {
  }

  // Only guides the solver: appending nothing leaves a text unchanged.
  lemma NoneAfter<T>(a: seq<T>)
    ensures a + [] == a
  {
  }

  lemma CleanIntroAlpha()
    ensures CleanFragments(["intro ", "alpha"]) == ["intro", "alpha"]
  {
    TrimIntro();
    TrimOfTrimmed("alpha");
    assert ["intro ", "alpha"][1..] == ["alpha"];
    assert CleanFragments(["alpha"]) == ["alpha"] + CleanFragments([]);
  }

  lemma TrimIntro()
    ensures Trim("intro ") == "intro"
  {
    var s := "intro ";
    assert SkipSpace(s, 0) == 0;
    assert SkipSpaceBack(s, 0, 5) == 5;
    assert SkipSpaceBack(s, 0, 6) == 5;
    assert s[0..5] == "intro";
  }
}
