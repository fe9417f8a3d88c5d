/** The loop of `scanFilesAndCollectTags` (generate-tags.js:62-73): each
    discovered note file is parsed into its relative path, title and tags,
    and its entry is pushed onto the list of every tag it names. */
module TagScan {
  import opened Strings
  import opened Paths
  import opened TagExtraction
  import opened TitleExtraction
  import opened TagIndex

  /** A discovered note: the path the directory walk produced and the text
      read from it. */
  datatype NoteFile = NoteFile(fullPath: string, content: string)

  /** What the loop body derives from one file before pushing. */
  function ParseNote(f: NoteFile): (r: NoteRecord)
    ensures f.fullPath == r.path || f.fullPath == DotSlash + r.path
    ensures r.title == [] || !IsSpace(r.title[0])
    ensures forall k :: 0 <= k < |r.tags| ==> r.tags[k] != [] && IsTrimmed(r.tags[k]) && '#' !in r.tags[k]
  {
    NoteRecord(RelativePath(f.fullPath), ExtractTitle(f.content), ExtractTags(f.content))
  }

  function Records(files: seq<NoteFile>): (recs: seq<NoteRecord>)
    ensures |recs| == |files|
    ensures forall i :: 0 <= i < |files| ==> recs[i] == ParseNote(files[i])
  {
    seq(|files|, i requires 0 <= i < |files| => ParseNote(files[i]))
  }

  /** Every key of the index is a tag as extraction produces it:
      non-empty, trimmed, free of `#`. */
  lemma IndexKeys(files: seq<NoteFile>)
    ensures forall t :: t in Aggregate(Records(files)) ==> t != [] && IsTrimmed(t) && '#' !in t
  {
    AggregateSpec(Records(files));
  }

  /** One more file extends the fold by that file's pushes. */
  lemma AggregateStep(files: seq<NoteFile>, i: nat)
    requires i < |files|
    ensures Aggregate(Records(files[..i + 1]))
         == PushAll(Aggregate(Records(files[..i])), ParseNote(files[i]).tags, EntryOf(ParseNote(files[i])))
  {
    var recs := Records(files[..i + 1]);
    assert recs[..i] == Records(files[..i]);
    assert recs[i] == ParseNote(files[i]);
  }

  /** Lines 62-73: the loop over the files and, for each, the loop over its
      tags; the loops rebuild the map tag by tag. */
  method CollectTags(files: seq<NoteFile>) returns (tagMap: TagMap)
    ensures tagMap == Aggregate(Records(files))
    ensures forall t :: Get(tagMap, t) == EntriesFor(t, Records(files))
    ensures forall t :: t in tagMap <==> Tagged(t, Records(files))
  {
    tagMap := map[];
    var i := 0;
    while i < |files|
      invariant 0 <= i <= |files|
      invariant tagMap == Aggregate(Records(files[..i]))
    {
      var fullPath := files[i].fullPath;
      var content := files[i].content;
      var tags := ExtractTags(content);
      var title := ExtractTitle(content);
      var relativePath := RelativePath(fullPath);
      tagMap := PushTags(tagMap, tags, Entry(relativePath, title));
      AggregateStep(files, i);
      i := i + 1;
    }
    assert files[..i] == files;
    AggregateSpec(Records(files));
  }

  /** Lines 70-73: for each tag of one note, create its list if needed and
      push the note's entry onto it. */
  method PushTags(tagMap0: TagMap, tags: seq<string>, e: Entry) returns (tagMap: TagMap)
    ensures tagMap == PushAll(tagMap0, tags, e)
  {
    tagMap := tagMap0;
    var j := 0;
    while j < |tags|
      invariant 0 <= j <= |tags|
      invariant tagMap == PushAll(tagMap0, tags[..j], e)
    {
      var tag := tags[j];
      ghost var m := tagMap;
      if tag !in tagMap {
        tagMap := tagMap[tag := []];
      }
      tagMap := tagMap[tag := tagMap[tag] + [e]];
      assert tagMap == Push(m, tag, e);
      assert tags[..j + 1][..j] == tags[..j];
      j := j + 1;
    }
    assert tags[..j] == tags;
  }
}
