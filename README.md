# Tag index generator, modelled in Dafny

`generate-tags.js` scans a tree of Markdown notes. For every note it reads
the first `**Tags:**` line and the first heading. It then groups the notes by
tag and renders a tag section: a fixed header followed by one collapsible
`<details>` block per tag, in sorted tag order, each listing
`- [<basename>](<path>) <title>` for every note carrying the tag.

This project models that text pipeline and proves what it promises.

| file | module | what it holds |
|---|---|---|
| `strings.dfy` | `Strings` | ECMAScript whitespace and line terminators, literal search, `split`/`join` on one character, `trim`, decimal rendering of a count |
| `ordering.dfy` | `Ordering` | the default `sort()` order on strings, and the sorted key list of a map |
| `paths.dfy` | `Paths` | the `./` strip (line 67) and `path.basename(p, ".md")` (line 105) |
| `note_tags.dfy` | `TagExtraction` | `extractTagsFromContent` (lines 20-32) |
| `note_title.dfy` | `TitleExtraction` | `extractTitle` (lines 34-37) |
| `tag_index.dfy` | `TagIndex` | the tag map as a value: the fold of lines 70-73, and a reference definition of each tag's entry list |
| `tag_scan.dfy` | `TagScan` | the loop of lines 62-73 as methods whose loops rebuild the map tag by tag |
| `tag_section.dfy` | `TagSection` | `generateTagSection` (lines 84-115): a method that pushes lines, and the pure rendering it is proved equal to |

Two points where the code behaves in a way a reader might not expect; the
model follows the code in both:

- The title regex `/^#\s*/` removes exactly one `#`. A heading `## Foo` gets
  the title `# Foo` (`TitleExtraction.ExtractTitleKeepsSecondHash`), not `Foo`.
- The fold pushes once per tag occurrence, with no deduplication. A note
  whose tag line lists a tag twice appears twice under that tag
  (`TagIndex.AggregateKeepsDuplicates`). So a (tag, path) pair can occur
  more than once in the map.

I/O is replaced by parameters. The list of discovered files and the text of
each file are the input of `TagScan.CollectTags`, as a sequence of
`NoteFile(fullPath, content)` values.

## Model

| member | source | states |
|---|---|---|
| `TagExtraction.TagLine` | generate-tags.js:21-22 | the regex finds a match exactly when the text contains `**Tags:**`; the captured group lies on one line |
| `TagExtraction.TagLineOfFirstMarker` | generate-tags.js:21 | the captured group is the rest of the line after the first `**Tags:**`, wherever in its line that marker stands |
| `TagExtraction.CleanFragments` | generate-tags.js:28-29 | `map(trim)` then `filter(tag !== "")`: at most as many tags as fragments, each non-empty and trimmed |
| `TagExtraction.CleanFragmentsAppend` | generate-tags.js:28-29 | `map` and `filter` work fragment by fragment: cleaning a concatenation is the concatenation of the cleaned parts, so the tags keep the fragments' order |
| `TagExtraction.CleanFragmentsOne` | generate-tags.js:28-29 | one fragment gives exactly its trim, or nothing when the trim is empty; with `CleanFragmentsAppend` this fixes the result for every input |
| `TagExtraction.ExtractTags` | generate-tags.js:20-32 | no marker gives `[]`; every tag is non-empty, trimmed, free of `#` and of line terminators |
| `TagExtraction.ExtractTagsOfLine` | generate-tags.js:21-29 | when no marker starts before a `**Tags:**` (text before it on its line allowed) and the rest of its line is the fragments joined by `#`, the tags are those fragments trimmed, empty ones dropped, in left-to-right order; text on later lines (including later markers) does not matter |
| `TagExtraction.TagsAfterMarker` | generate-tags.js:21-27 | when no marker starts before a `**Tags:**`, the tags come from the split on `#` of the rest of that marker's line, up to its line terminator |
| `TagExtraction.MarkerFirstAt` | generate-tags.js:21 | a marker after text in which no marker starts (not even one running on into that marker) is the first match |
| `TagExtraction.NoMarkerBeforeLineStart` | generate-tags.js:21 | marker-free text that ends a line leaves the marker after it the first one |
| `TagExtraction.CleanFragmentsOfTags` | generate-tags.js:28-29 | fragments that are already non-empty and trimmed pass `trim` and the filter unchanged |
| `TagExtraction.CleanFragmentsAvoid` | generate-tags.js:28-29 | trimming and filtering introduce no character absent from the fragments |
| `TagExtraction.ExtractTagsLeadingFragment` | generate-tags.js:26-29 | `**Tags:**intro #alpha` yields `["intro", "alpha"]`: the fragment before the first `#` is a tag too |
| `TagExtraction.ExtractTagsMidLine` | generate-tags.js:21-29 | `- **Tags:** #a` yields `["a"]`: a marker after a list bullet is matched too, and the blank fragment before `#` is dropped |
| `TitleExtraction.FirstHeading` | generate-tags.js:36 | `lines.find(startsWith("#"))`: the index found is a heading line and no earlier line is one; none found means no line is one |
| `TitleExtraction.StripHeadingMark` | generate-tags.js:36 | `replace(/^#\s*/, "")` keeps a suffix of the line, drops the `#` and only whitespace after it, and leaves no leading whitespace |
| `TitleExtraction.ExtractTitle` | generate-tags.js:34-37 | the title has no leading whitespace and no newline |
| `TitleExtraction.ExtractTitleOfLines` | generate-tags.js:34-37 | when the first line starting with `#` is `#`, whitespace, then `title`, the result is exactly `title`, whatever follows |
| `TitleExtraction.StripHeadingMarkOf` | generate-tags.js:36 | stripping `#` + whitespace + `title` gives back `title` |
| `TitleExtraction.NoHeadingNoTitle` | generate-tags.js:36 | text in which no line starts with `#` has the title `""` |
| `TitleExtraction.HeadingLineStart` | generate-tags.js:35-36 | a split line starting with `#` is a `#` at the start of the text or right after a newline |
| `TitleExtraction.ExtractTitleKeepsSecondHash` | generate-tags.js:36 | `## Foo` gives `# Foo`: only one `#` is removed |
| `Paths.RelativePath` | generate-tags.js:67 | a path starting with `./` loses exactly that prefix; any other path is unchanged |
| `Paths.RelativePathStripsOnce` | generate-tags.js:67 | only one `./` goes: `././x` becomes `./x` |
| `Paths.AfterLastSlashSpec` | generate-tags.js:105 | the last path component is a suffix of the path and is the whole path or follows a `/` |
| `Paths.Basename` | generate-tags.js:105 | `path.basename(p, ".md")` has no `/`; `BasenameSuffix` says it is the last path component with at most a trailing `.md` removed, and `BasenameOfNote` pins it for `dir/name.md` |
| `Paths.BasenameSuffix` | generate-tags.js:105 | the link label is the last path component (`AfterLastSlash`) itself or that component with one trailing `.md` removed, so it ends the path, possibly followed by `.md` |
| `Paths.BasenameOfNote` | generate-tags.js:105 | the label of `dir/name.md` is `name` |
| `Ordering.LessIrreflexive` | generate-tags.js:97 | no string sorts before itself |
| `Ordering.LessTransitive` | generate-tags.js:97 | the sort order is transitive |
| `Ordering.LessTotal` | generate-tags.js:97 | any two different strings are ordered one way or the other |
| `Ordering.Least` | generate-tags.js:97 | a non-empty key set has an element that sorts before every other |
| `Ordering.SortedKeys` | generate-tags.js:97 | `Object.keys(m).sort()` has one element per key, and each element is a key |
| `Ordering.SortedKeysComplete` | generate-tags.js:97 | every key of the map is in the sorted list |
| `Ordering.SortedKeysAscending` | generate-tags.js:97 | the sorted keys are strictly ascending, so each key appears exactly once |
| `TagIndex.Push` | generate-tags.js:71-72 | the tag becomes a key, its list gains the entry at the end, and every other tag keeps its list |
| `TagIndex.PushAll` | generate-tags.js:70-73 | the inner loop over one note's tags as a fold of `Push`; `PushAllSpec` states its result |
| `TagIndex.Aggregate` | generate-tags.js:62-73 | the outer loop as a fold over the notes in order; `AggregateSpec` states its result |
| `TagIndex.EntriesFor` | generate-tags.js:62-73 | the reference list of a tag, independent of the map: note by note, one copy of the note's entry per occurrence of the tag; `AggregateSpec` equates it with the fold |
| `TagIndex.PushAllSpec` | generate-tags.js:70-73 | pushing one note's tags appends one copy of its entry per occurrence of a tag, and adds exactly those tags as keys |
| `TagIndex.AggregateSpec` | generate-tags.js:62-73 | the fold gives every tag exactly its reference entry list (note by note, in order, one copy per occurrence); a tag is a key iff some note lists it |
| `TagIndex.EntriesForLength` | generate-tags.js:70-73 | the number of entries of a tag is its number of occurrences over all notes |
| `TagIndex.AggregateListsNonEmpty` | generate-tags.js:70-73 | every list in the map has as many entries as the tag has occurrences, and at least one |
| `TagIndex.EntriesForAppend` | generate-tags.js:62-73 | entries keep note order: the entries of earlier notes precede those of later ones |
| `TagIndex.AggregateKeepsDuplicates` | generate-tags.js:70-73 | a note listing a tag twice contributes two entries to it |
| `TagScan.ParseNote` | generate-tags.js:64-67 | the record's path is the file path with at most a leading `./` removed; its title and tags have the extraction properties |
| `TagScan.Records` | generate-tags.js:62-67 | one record per discovered file, in discovery order |
| `TagScan.IndexKeys` | generate-tags.js:62-73 | every key of the map is a non-empty, trimmed, `#`-free tag |
| `TagScan.AggregateStep` | generate-tags.js:62-73 | one more file extends the fold by exactly that file's pushes |
| `TagScan.PushTags` | generate-tags.js:70-73 | the inner loop over one note's tags leaves the map equal to pushing the note's entry for each tag in order |
| `TagScan.CollectTags` | generate-tags.js:62-73 | the map the two loops rebuild tag by tag is the fold of all files, each tag's list is its reference entry list, and the keys are exactly the tags some file lists |
| `TagSection.GenerateTagSection` | generate-tags.js:84-115 | the text built by the pushes and the final join equals `Render(tagMap)`, a function of the map alone |
| `TagSection.Render` | generate-tags.js:84-115 | the section as a function of the map: its lines joined by `\n`; `GenerateTagSection` is proved equal to it, `RenderEmpty` gives its empty case |
| `TagSection.RenderLines` | generate-tags.js:86-110 | the header, then the blocks of the keys in sorted order; `BlockOfKey` and `DetailsPerTag` state its shape |
| `TagSection.Block` | generate-tags.js:98-109 | one tag's lines: `<details>`, its summary, a blank line, its list lines, `</details>`, a blank line; `BlockShape` states its shape |
| `TagSection.SummaryLine` | generate-tags.js:99-101 | the summary line holding the tag and its entry count; `BlockShape` shows the count reads back as the number of entries |
| `TagSection.EntryLines` | generate-tags.js:103-107 | one list line per entry; `EntryLinesAt` puts the k-th entry's line at position k |
| `TagSection.EntryLinesAt` | generate-tags.js:103-107 | the k-th list line is the line of the k-th entry |
| `TagSection.PushBlock` | generate-tags.js:98-109 | the pushes for one tag append exactly that tag's block to the lines |
| `TagSection.PushEntryLines` | generate-tags.js:103-107 | the inner loop appends one list line per entry, in entry order |
| `TagSection.BlocksAt` | generate-tags.js:97-110 | the i-th block rendered is the block of the i-th sorted key |
| `TagSection.EntryLine` | generate-tags.js:104-106 | each entry produces a `- [` list line |
| `TagSection.BlockOfKey` | generate-tags.js:97-110 | the block of the i-th key holds that key's entries and sits after the blocks of all smaller keys and before those of all larger keys |
| `TagSection.BlockShape` | generate-tags.js:98-110 | a block opens with `<details>`, its summary shows a number whose value is the entry count, and its list lines are exactly one per entry, in entry order |
| `TagSection.BlockCounts` | generate-tags.js:98-110 | a block holds as many list lines as entries and exactly one `<details>` line |
| `TagSection.DetailsPerTag` | generate-tags.js:97-110 | the section holds exactly one `<details>` line per key |
| `TagSection.RenderEmpty` | generate-tags.js:86-112 | an empty map renders as the header lines joined by newlines, with no `<details>` |
| `TagSection.EntryLineOfNote` | generate-tags.js:105 | the entry of `dir/name.md` is listed as `- [name](dir/name.md) title` |
| `TagSection.FlattenAround` | generate-tags.js:97-110 | the section's blocks can be split around any one block |
| `Strings.Join` | generate-tags.js:112 | `lines.join(sep)`; `JoinSplit` and `SplitJoin` make it the inverse of `Split` |
| `Strings.NatToDecimal` | generate-tags.js:100 | the count printed as a non-empty string of decimal digits without a leading zero |
| `Strings.IndexOf` | generate-tags.js:21 | the first position at which the pattern occurs, none exactly when it does not occur |
| `Strings.RestOfLine` | generate-tags.js:21 | `(.*)` captures the prefix up to the first line terminator |
| `Strings.Split` | generate-tags.js:27-35 | `split` on one character gives at least one piece, none containing the separator |
| `Strings.JoinSplit` | generate-tags.js:27-35 | joining the pieces of a split with the separator gives the text back |
| `Strings.SplitJoin` | generate-tags.js:27-35 | splitting separator-free pieces joined by the separator gives the pieces back |
| `Strings.Trim` | generate-tags.js:28 | `trim()` removes only whitespace from both ends and leaves none there |
| `Strings.TrimChars` | generate-tags.js:28 | trimming introduces no new character |
| `Strings.NatToDecimalValue` | generate-tags.js:100 | the printed entry count reads back as the count |

## Left out

- `getAllMarkdownFiles` (lines 39-52): the directory walk is file-system I/O. The discovered files are an input sequence instead.
- `ROOT_DIR` and the creation of its directory (lines 5-9, 15-18): these depend on the clock and the file system.
- `fs.readFileSync` (line 64): the text of each file is part of the input `NoteFile`.
- `console.log` calls: these are logging with no effect on the results.
- The README marker constants (lines 10-12): they are declared, but no code in the file reads or rewrites the document.
- Plain-object quirks of `tagMap`: a tag such as `constructor` would find an inherited property at line 71. The map is an ordinary map.
- Regex engines: `\s` and `trim` use the ECMAScript whitespace set, and `.` stops at `\n`, `\r`, U+2028 and U+2029. Other details of regex matching are not modelled.
- Ordering.Less: compares Unicode code points. JavaScript's `sort` compares UTF-16 code units, so the two orders differ for characters beyond U+FFFF.
- Paths.Basename: follows Node's POSIX `basename` for paths without a trailing `/`. Trailing slashes are not modelled, because the directory walk only yields file paths.
- Text is a sequence of code points. UTF-8 decoding and UTF-16 lengths are not modelled.
