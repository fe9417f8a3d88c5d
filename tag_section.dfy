/** The rendered tag section (generate-tags.js, `generateTagSection`): a
    fixed header, then one collapsible block per tag in sorted order, the
    lines joined by newlines. */
module TagSection {
  import opened Strings
  import opened Ordering
  import opened Paths
  import opened TagIndex

  /** The header lines, pushed before any tag block (lines 86-95). */
  const Header: seq<string> := [
    "### \U{1F4CC} Tags\n",
    "<style>",
    "summary.tag-summary {",
    "  font-size: 1.3em;",
    "  font-weight: bold;",
    "  margin: 1em 0;",
    "}",
    "</style>\n"
  ]

  const DetailsOpen: string := "<details>"
  const DetailsClose: string := "</details>"

  /** The summary line of a tag's block: the tag, and the number of its
      entries followed by the counter word `개`. */
  function SummaryLine(tag: string, n: nat): string {
    SummaryOpen + tag + CountOpen + NatToDecimal(n) + CountClose
  }

  const SummaryOpen: string := "<summary class=\"tag-summary\">"
  const CountOpen: string := " <code>"
  const CountClose: string := "\U{AC1C}</code></summary>"

  /** A line that starts with `- [`, the mark of a list line. */
  predicate IsEntryLine(line: string) {
    |line| >= 3 && line[0] == '-' && line[1] == ' ' && line[2] == '['
  }

  /** `- [<basename>](<path>) <title>`. */
  function EntryLine(e: Entry): (line: string)
    ensures IsEntryLine(line)
  {
    ItemOpen + Basename(e.path) + LinkMiddle + e.path + LinkClose + e.title
  }

  const ItemOpen: string := "- ["
  const LinkMiddle: string := "]("
  const LinkClose: string := ") "

  /** The list lines of a block, in entry order. */
  function EntryLines(es: seq<Entry>): (lines: seq<string>)
    ensures |lines| == |es|
  {
    if es == [] then []
    else EntryLines(es[..|es| - 1]) + [EntryLine(es[|es| - 1])]
  }

  /** The lines pushed for one tag (lines 98-109). */
  function Block(tag: string, es: seq<Entry>): seq<string> {
    [DetailsOpen, SummaryLine(tag, |es|), ""] + EntryLines(es) + [DetailsClose, ""]
  }

  /** The blocks of the given tags, in the given order. */
  function Blocks(keys: seq<string>, m: TagMap): (bs: seq<seq<string>>)
    ensures |bs| == |keys|
  {
    if keys == [] then []
    else Blocks(keys[..|keys| - 1], m) + [Block(keys[|keys| - 1], Get(m, keys[|keys| - 1]))]
  }

  /** The lines of the blocks one after the other. */
  function Flatten(bs: seq<seq<string>>): seq<string> {
    if bs == [] then [] else Flatten(bs[..|bs| - 1]) + bs[|bs| - 1]
  }

  /** All lines of the section: the header, then the blocks of the keys in
      ascending order. */
  function RenderLines(m: TagMap): seq<string> {
    Header + Flatten(Blocks(SortedKeys(m.Keys), m))
  }

  /** `lines.join("\n")`. */
  function Render(m: TagMap): string {
    Join(RenderLines(m), "\n")
  }

  // -------------------------------------------------------------- method

  /** Lines 84-115: the lines array grows by pushes in the two loops, then
      is joined. */
  method GenerateTagSection(tagMap: TagMap) returns (tagSection: string)
    ensures tagSection == Render(tagMap)
  {
    var lines := Header;
    var keys := SortedKeys(tagMap.Keys);
    var i := 0;
    SectionStart(keys, tagMap);
    while i < |keys|
      invariant 0 <= i <= |keys|
      invariant lines == Header + Flatten(Blocks(keys[..i], tagMap))
    {
      var tag := keys[i];
      // `tag` is a key, so this is the list `tagMap[tag]`.
      lines := PushBlock(lines, tag, Get(tagMap, tag));
      SectionSnoc(keys, i, tagMap);
      i := i + 1;
    }
    RenderedLines(tagMap, lines);
    tagSection := Join(lines, "\n");
  }

  /** Before any key, the section is the header alone. Only guides the
      solver, kept apart so the method's proof stays small. */
  lemma SectionStart(keys: seq<string>, m: TagMap)
    ensures Header == Header + Flatten(Blocks(keys[..0], m))
  {
    assert keys[..0] == [];
    assert Header + [] == Header;
  }

  /** Once every key's block is pushed, joining the lines gives the section. */
  lemma RenderedLines(m: TagMap, lines: seq<string>)
    requires lines == Header + Flatten(Blocks(SortedKeys(m.Keys)[..|m|], m))
    ensures Join(lines, "\n") == Render(m)
  {
    assert SortedKeys(m.Keys)[..|m|] == SortedKeys(m.Keys);
  }

  /** Lines 98-109: the pushes for one tag append exactly its block. */
  method PushBlock(lines: seq<string>, tag: string, entries: seq<Entry>) returns (r: seq<string>)
    ensures r == lines + Block(tag, entries)
  {
    r := lines + [DetailsOpen];
    r := r + [SummaryLine(tag, |entries|)];
    r := r + [""];
    r := PushEntryLines(r, entries);
    r := r + [DetailsClose];
    r := r + [""];
    BlockPushed(lines, tag, entries);
  }

  /** Lines 103-107: one list line pushed per entry, in entry order. */
  method PushEntryLines(lines: seq<string>, entries: seq<Entry>) returns (r: seq<string>)
    ensures r == lines + EntryLines(entries)
  {
    r := lines;
    var j := 0;
    while j < |entries|
      invariant 0 <= j <= |entries|
      invariant r == lines + EntryLines(entries[..j])
    {
      Assoc(lines, EntryLines(entries[..j]), [EntryLine(entries[j])]);
      EntryLinesSnoc(entries, j);
      r := r + [EntryLine(entries[j])];
      j := j + 1;
    }
    assert entries[..j] == entries;
  }

  // Only guides the solver: concatenation regrouped.
  lemma Assoc<T>(a: seq<T>, b: seq<T>, c: seq<T>)
    ensures a + b + c == a + (b + c)
  {
  }

  /** The pushes for one tag add exactly its block. */
  lemma BlockPushed(done: seq<string>, tag: string, es: seq<Entry>)
    ensures done + [DetailsOpen] + [SummaryLine(tag, |es|)] + [""] + EntryLines(es) + [DetailsClose] + [""]
         == done + Block(tag, es)
  {
    PushesInOrder(done, DetailsOpen, SummaryLine(tag, |es|), "", EntryLines(es), DetailsClose, "");
  }

  // Only guides the solver: single pushes regrouped into one append.
  lemma PushesInOrder<T>(done: seq<T>, a: T, b: T, c: T, body: seq<T>, x: T, y: T)
    ensures done + [a] + [b] + [c] + body + [x] + [y] == done + ([a, b, c] + body + [x, y])
  {
  }

  lemma EntryLinesSnoc(es: seq<Entry>, j: nat)
    requires j < |es|
    ensures EntryLines(es[..j + 1]) == EntryLines(es[..j]) + [EntryLine(es[j])]
  {
    assert es[..j + 1][..j] == es[..j];
  }

  /** One more key adds its block at the end. */
  lemma BlocksSnoc(keys: seq<string>, i: nat, m: TagMap)
    requires i < |keys|
    ensures Flatten(Blocks(keys[..i + 1], m)) == Flatten(Blocks(keys[..i], m)) + Block(keys[i], Get(m, keys[i]))
  {
    assert keys[..i + 1][..i] == keys[..i];
    FlattenSnoc(Blocks(keys[..i], m), Block(keys[i], Get(m, keys[i])));
  }

  /** The section so far grows by the block of the next key. */
  lemma SectionSnoc(keys: seq<string>, i: nat, m: TagMap)
    requires i < |keys|
    ensures Header + Flatten(Blocks(keys[..i], m)) + Block(keys[i], Get(m, keys[i]))
         == Header + Flatten(Blocks(keys[..i + 1], m))
  {
    BlocksSnoc(keys, i, m);
    Assoc(Header, Flatten(Blocks(keys[..i], m)), Block(keys[i], Get(m, keys[i])));
  }

  /** The `i`-th block is the block of the `i`-th key. */
  lemma {:induction false} BlocksAt(keys: seq<string>, m: TagMap, i: nat)
    requires i < |keys|
    ensures Blocks(keys, m)[i] == Block(keys[i], Get(m, keys[i]))
    decreases |keys|
  {
    if i < |keys| - 1 {
      BlocksAt(keys[..|keys| - 1], m, i);
    }
  }

  // -------------------------------------------------------------- lemmas

  /** How many of the lines equal `x`. */
  function CountLine(x: string, lines: seq<string>): nat {
    if lines == [] then 0
    else (if lines[0] == x then 1 else 0) + CountLine(x, lines[1..])
  }

  /** How many of the lines are list lines. */
  function CountEntryLines(lines: seq<string>): nat {
    if lines == [] then 0
    else (if IsEntryLine(lines[0]) then 1 else 0) + CountEntryLines(lines[1..])
  }

  lemma {:induction false} CountAppend(x: string, a: seq<string>, b: seq<string>)
    ensures CountLine(x, a + b) == CountLine(x, a) + CountLine(x, b)
    ensures CountEntryLines(a + b) == CountEntryLines(a) + CountEntryLines(b)
  {
    if a != [] {
      CountAppend(x, a[1..], b);
      assert (a + b)[1..] == a[1..] + b;
    } else {
      assert a + b == b;
    }
  }

  lemma {:induction false} FlattenAppend(a: seq<seq<string>>, b: seq<seq<string>>)
    ensures Flatten(a + b) == Flatten(a) + Flatten(b)
    decreases |b|
  {
    if b == [] {
      assert a + b == a;
    } else {
      var init := b[..|b| - 1];
      FlattenAppend(a, init);
      assert (a + b)[..|a + b| - 1] == a + init;
    }
  }

  /** The lines of the blocks split around any one block. */
  lemma FlattenAround(bs: seq<seq<string>>, i: nat)
    requires i < |bs|
    ensures Flatten(bs) == Flatten(bs[..i]) + bs[i] + Flatten(bs[i + 1..])
  {
    SplitAround(bs, i);
    FlattenAppend(bs[..i] + [bs[i]], bs[i + 1..]);
    FlattenSnoc(bs[..i], bs[i]);
  }

  // Only guides the solver: a sequence around one of its elements.
  lemma SplitAround(bs: seq<seq<string>>, i: nat)
    requires i < |bs|
    ensures bs[..i] + [bs[i]] + bs[i + 1..] == bs
  {
  }

  lemma FlattenSnoc(bs: seq<seq<string>>, b: seq<string>)
    ensures Flatten(bs + [b]) == Flatten(bs) + b
  {
    assert (bs + [b])[..|bs|] == bs;
  }

  /** The block of the `i`-th smallest tag holds that tag's entries and
      sits between the blocks of the smaller tags and those of the larger
      ones. */
  lemma BlockOfKey(m: TagMap, i: nat)
    requires i < |m|
    ensures var keys := SortedKeys(m.Keys);
      var bs := Blocks(keys, m);
      && (forall k :: 0 <= k < i ==> Less(keys[k], keys[i]))
      && (forall k :: i < k < |keys| ==> Less(keys[i], keys[k]))
      && bs[i] == Block(keys[i], m[keys[i]])
      && RenderLines(m) == Header + (Flatten(bs[..i]) + bs[i] + Flatten(bs[i + 1..]))
  {
    var keys := SortedKeys(m.Keys);
    var bs := Blocks(keys, m);
    SortedKeysAscending(m.Keys);
    BlocksAt(keys, m, i);
    FlattenAround(bs, i);
  }

  /** A block opens with `<details>`, its summary line shows the number of
      entries, and it holds exactly one list line per entry, in order. */
  lemma BlockShape(tag: string, es: seq<Entry>)
    ensures |Block(tag, es)| == |es| + 5
    ensures Block(tag, es)[0] == DetailsOpen
    ensures Block(tag, es)[1] == SummaryLine(tag, |es|)
    ensures DigitsValue(NatToDecimal(|es|)) == |es|
    ensures forall k :: 0 <= k < |es| ==> Block(tag, es)[3 + k] == EntryLine(es[k])
    ensures CountEntryLines(Block(tag, es)) == |es|
    ensures CountLine(DetailsOpen, Block(tag, es)) == 1
  {
    NatToDecimalValue(|es|);
    EntryLinesAt(es);
    BlockCounts(tag, es);
  }

  lemma BlockCounts(tag: string, es: seq<Entry>)
    ensures CountEntryLines(Block(tag, es)) == |es|
    ensures CountLine(DetailsOpen, Block(tag, es)) == 1
  {
    var head := [DetailsOpen, SummaryLine(tag, |es|), ""];
    var tail := [DetailsClose, ""];
    var body := EntryLines(es);
    CountAppend(DetailsOpen, head + body, tail);
    CountAppend(DetailsOpen, head, body);
    EntryLinesCount(es);
    HeadCounts(tag, |es|);
    assert DetailsClose[1] != DetailsOpen[1];
    CountAbsent(DetailsOpen, tail);
  }

  lemma HeadCounts(tag: string, n: nat)
    ensures CountEntryLines([DetailsOpen, SummaryLine(tag, n), ""]) == 0
    ensures CountLine(DetailsOpen, [DetailsOpen, SummaryLine(tag, n), ""]) == 1
  {
    var summary := SummaryLine(tag, n);
    assert summary[0] == '<' && summary[1] == 's';
    CountOne(DetailsOpen, DetailsOpen);
    CountOne(DetailsOpen, summary);
    CountOne(DetailsOpen, "");
    CountAppend(DetailsOpen, [DetailsOpen], [summary, ""]);
    CountAppend(DetailsOpen, [summary], [""]);
    assert [DetailsOpen, summary, ""] == [DetailsOpen] + ([summary] + [""]);
  }

  lemma CountOne(x: string, line: string)
    ensures CountLine(x, [line]) == if line == x then 1 else 0
    ensures CountEntryLines([line]) == if IsEntryLine(line) then 1 else 0
  {
    assert [line][1..] == [];
  }

  lemma {:induction false} EntryLinesAt(es: seq<Entry>)
    ensures forall k :: 0 <= k < |es| ==> EntryLines(es)[k] == EntryLine(es[k])
    decreases |es|
  {
    if es != [] {
      EntryLinesAt(es[..|es| - 1]);
    }
  }

  /** Every entry line is a list line and none is `<details>`. */
  lemma {:induction false} EntryLinesCount(es: seq<Entry>)
    ensures CountEntryLines(EntryLines(es)) == |es|
    ensures CountLine(DetailsOpen, EntryLines(es)) == 0
    decreases |es|
  {
    if es != [] {
      var init := es[..|es| - 1];
      var line := EntryLine(es[|es| - 1]);
      EntryLinesCount(init);
      CountAppend(DetailsOpen, EntryLines(init), [line]);
      assert line != DetailsOpen by {
        assert line[0] != DetailsOpen[0];
      }
    }
  }

  /** The section holds exactly one `<details>` line per tag. */
  lemma DetailsPerTag(m: TagMap)
    ensures CountLine(DetailsOpen, RenderLines(m)) == |m|
  {
    var keys := SortedKeys(m.Keys);
    BlocksDetails(keys, m);
    CountAppend(DetailsOpen, Header, Flatten(Blocks(keys, m)));
    HeaderCounts();
  }

  lemma HeaderCounts()
    ensures CountLine(DetailsOpen, Header) == 0
    ensures CountEntryLines(Header) == 0
  {
    forall k | 0 <= k < |Header|
      ensures Header[k] != DetailsOpen && !IsEntryLine(Header[k])
    {
      assert Header[k][0] != '-';
      assert Header[k] != DetailsOpen by {
        if |Header[k]| == |DetailsOpen| {
          assert Header[k][1] != DetailsOpen[1];
        }
      }
    }
    CountAbsent(DetailsOpen, Header);
  }

  /** Lines none of which is `x` or a list line count zero of each. */
  lemma {:induction false} CountAbsent(x: string, lines: seq<string>)
    requires forall k :: 0 <= k < |lines| ==> lines[k] != x && !IsEntryLine(lines[k])
    ensures CountLine(x, lines) == 0
    ensures CountEntryLines(lines) == 0
  {
    if lines != [] {
      CountAbsent(x, lines[1..]);
    }
  }

  lemma {:induction false} BlocksDetails(keys: seq<string>, m: TagMap)
    ensures CountLine(DetailsOpen, Flatten(Blocks(keys, m))) == |keys|
    decreases |keys|
  {
    if keys != [] {
      var n := |keys| - 1;
      BlocksDetails(keys[..n], m);
      BlocksSnoc(keys, n, m);
      assert keys[..n + 1] == keys;
      CountAppend(DetailsOpen, Flatten(Blocks(keys[..n], m)), Block(keys[n], Get(m, keys[n])));
      BlockCounts(keys[n], Get(m, keys[n]));
    }
  }

  /** An empty index renders as the header alone, with no block. */
  lemma RenderEmpty()
    ensures RenderLines(map[]) == Header
    ensures Render(map[]) == Join(Header, "\n")
    ensures CountLine(DetailsOpen, RenderLines(map[])) == 0
  {
    var empty: TagMap := map[];
    assert SortedKeys(empty.Keys) == [];
    HeaderCounts();
  }

  /** A note file `dir/name.md` is listed under its bare name. */
  lemma EntryLineOfNote(dir: string, name: string, title: string)
    requires name != [] && '/' !in name
    ensures EntryLine(Entry(dir + "/" + name + MarkdownExt, title))
         == "- [" + name + "](" + dir + "/" + name + MarkdownExt + ") " + title
  {
    BasenameOfNote(dir, name);
  }
}
