/** The tag index of `scanFilesAndCollectTags` (generate-tags.js): for
    every tag a note lists, the note's entry is appended to that tag's
    list, in note order and without deduplication. */
module TagIndex {

  /** `{ path: relativePath, title }`. */
  datatype Entry = Entry(path: string, title: string)

  /** What one note file yields: its relative path, title and tags. */
  datatype NoteRecord = NoteRecord(path: string, title: string, tags: seq<string>)

  type TagMap = map<string, seq<Entry>>

  /** The list a tag has so far, empty if it is not a key yet. */
  function Get(m: TagMap, t: string): seq<Entry> {
    if t in m then m[t] else []
  }

  /** The entry a note contributes to each of its tags. */
  function EntryOf(r: NoteRecord): Entry {
    Entry(r.path, r.title)
  }

  /** `if (!tagMap[tag]) tagMap[tag] = []; tagMap[tag].push(e)`: the tag
      becomes a key if it was not one, its list grows by `e` at the end,
      and every other tag keeps its list. */
  function Push(m: TagMap, t: string, e: Entry): (r: TagMap)
    ensures r.Keys == m.Keys + {t}
    ensures r[t] == Get(m, t) + [e]
    ensures forall u :: u in m && u != t ==> r[u] == m[u]
  {
    m[t := Get(m, t) + [e]]
  }

  /** The inner loop over one note's tags. */
  function PushAll(m: TagMap, tags: seq<string>, e: Entry): TagMap
    decreases |tags|
  {
    if tags == [] then m
    else Push(PushAll(m, tags[..|tags| - 1], e), tags[|tags| - 1], e)
  }

  /** The whole fold: the notes are processed in order. */
  function Aggregate(recs: seq<NoteRecord>): TagMap
    decreases |recs|
  {
    if recs == [] then map[]
    else
      var r := recs[|recs| - 1];
      PushAll(Aggregate(recs[..|recs| - 1]), r.tags, EntryOf(r))
  }

  // ------------------------------------------------ reference definition

  /** How often `t` occurs in `tags`. */
  function Count(t: string, tags: seq<string>): (n: nat)
    ensures n <= |tags|
    ensures n == 0 <==> t !in tags
    decreases |tags|
  {
    if tags == [] then 0
    else
      var n := Count(t, tags[..|tags| - 1]);
      assert tags == tags[..|tags| - 1] + [tags[|tags| - 1]];
      n + if tags[|tags| - 1] == t then 1 else 0
  }

  /** `n` copies of `e`. */
  function Repeat(e: Entry, n: nat): (r: seq<Entry>)
    ensures |r| == n
    ensures forall k :: 0 <= k < n ==> r[k] == e
  {
    if n == 0 then [] else Repeat(e, n - 1) + [e]
  }

  /** The entries tag `t` should end up with: note by note, in order, one
      copy of the note's entry per occurrence of `t` in its tag list. */
  function EntriesFor(t: string, recs: seq<NoteRecord>): seq<Entry>
    decreases |recs|
  {
    if recs == [] then []
    else
      var r := recs[|recs| - 1];
      EntriesFor(t, recs[..|recs| - 1]) + Repeat(EntryOf(r), Count(t, r.tags))
  }

  /** How often `t` occurs over all notes' tag lists. */
  function Occurrences(t: string, recs: seq<NoteRecord>): nat
    decreases |recs|
  {
    if recs == [] then 0
    else Occurrences(t, recs[..|recs| - 1]) + Count(t, recs[|recs| - 1].tags)
  }

  /** Some note lists `t` among its tags. */
  ghost predicate Tagged(t: string, recs: seq<NoteRecord>) {
    exists i :: 0 <= i < |recs| && t in recs[i].tags
  }

  // -------------------------------------------------------------- lemmas

  /** Pushing one note's tags appends a copy of its entry per occurrence,
      and the keys grow by exactly the tags pushed. */
  lemma PushAllSpec(m: TagMap, tags: seq<string>, e: Entry)
    ensures forall u :: Get(PushAll(m, tags, e), u) == Get(m, u) + Repeat(e, Count(u, tags))
    ensures forall u :: u in PushAll(m, tags, e) <==> u in m || u in tags
  {
    forall u
      ensures Get(PushAll(m, tags, e), u) == Get(m, u) + Repeat(e, Count(u, tags))
      ensures u in PushAll(m, tags, e) <==> u in m || u in tags
    {
      PushAllGet(m, tags, e, u);
      PushAllKeys(m, tags, e, u);
    }
  }

  lemma {:induction false} PushAllGet(m: TagMap, tags: seq<string>, e: Entry, u: string)
    ensures Get(PushAll(m, tags, e), u) == Get(m, u) + Repeat(e, Count(u, tags))
    decreases |tags|
  {
    if tags != [] {
      var init := tags[..|tags| - 1];
      var last := tags[|tags| - 1];
      PushAllGet(m, init, e, u);
      assert Count(u, tags) == Count(u, init) + if last == u then 1 else 0;
      if u == last {
        assert Repeat(e, Count(u, tags)) == Repeat(e, Count(u, init)) + [e];
      }
    }
  }

  lemma {:induction false} PushAllKeys(m: TagMap, tags: seq<string>, e: Entry, u: string)
    ensures u in PushAll(m, tags, e) <==> u in m || u in tags
    decreases |tags|
  {
    if tags != [] {
      var init := tags[..|tags| - 1];
      PushAllKeys(m, init, e, u);
      assert tags == init + [tags[|tags| - 1]];
    }
  }

  /** The fold yields, for every tag, exactly the reference entry list; and
      a tag is a key exactly when some note lists it. */
  lemma {:induction false} AggregateSpec(recs: seq<NoteRecord>)
    ensures forall t :: Get(Aggregate(recs), t) == EntriesFor(t, recs)
    ensures forall t :: t in Aggregate(recs) <==> Tagged(t, recs)
    decreases |recs|
  {
    if recs != [] {
      var init := recs[..|recs| - 1];
      var f := recs[|recs| - 1];
      AggregateSpec(init);
      PushAllSpec(Aggregate(init), f.tags, EntryOf(f));
      forall t
        ensures t in Aggregate(recs) <==> Tagged(t, recs)
      {
        if Tagged(t, init) {
          var i :| 0 <= i < |init| && t in init[i].tags;
          assert recs[i] == init[i];
        }
        if Tagged(t, recs) {
          var i :| 0 <= i < |recs| && t in recs[i].tags;
          if i < |init| {
            assert init[i] == recs[i];
          }
        }
      }
    }
  }

  /** The number of entries a tag gets is the number of times it occurs
      over all notes, repeats within one note included. */
  lemma {:induction false} EntriesForLength(t: string, recs: seq<NoteRecord>)
    ensures |EntriesFor(t, recs)| == Occurrences(t, recs)
    decreases |recs|
  {
    if recs != [] {
      EntriesForLength(t, recs[..|recs| - 1]);
    }
  }

  /** Every entry list in the index is non-empty. */
  lemma AggregateListsNonEmpty(recs: seq<NoteRecord>)
    ensures forall t :: t in Aggregate(recs) ==> |Aggregate(recs)[t]| == Occurrences(t, recs) > 0
  {
    AggregateSpec(recs);
    forall t | t in Aggregate(recs)
      ensures |Aggregate(recs)[t]| == Occurrences(t, recs) > 0
    {
      EntriesForLength(t, recs);
      var i :| 0 <= i < |recs| && t in recs[i].tags;
      OccurrencesPositive(t, recs, i);
    }
  }

  lemma {:induction false} OccurrencesPositive(t: string, recs: seq<NoteRecord>, i: nat)
    requires i < |recs| && t in recs[i].tags
    ensures Occurrences(t, recs) > 0
    decreases |recs|
  {
    if i < |recs| - 1 {
      OccurrencesPositive(t, recs[..|recs| - 1], i);
    }
  }

  /** Entries keep note order: those of earlier notes come first. */
  lemma {:induction false} EntriesForAppend(t: string, a: seq<NoteRecord>, b: seq<NoteRecord>)
    ensures EntriesFor(t, a + b) == EntriesFor(t, a) + EntriesFor(t, b)
    decreases |b|
  {
    if b != [] {
      var init := b[..|b| - 1];
      EntriesForAppend(t, a, init);
      assert (a + b)[..|a + b| - 1] == a + init;
      assert (a + b)[|a + b| - 1] == b[|b| - 1];
    } else {
      assert a + b == a;
    }
  }

  /** A note that lists a tag twice contributes two entries to it. */
  lemma AggregateKeepsDuplicates(r: NoteRecord, t: string)
    requires r.tags == [t, t]
    ensures Aggregate([r])[t] == [EntryOf(r), EntryOf(r)]
  {
    AggregateSpec([r]);
    assert Tagged(t, [r]) by {
      assert t in [r][0].tags;
    }
    assert [r][..0] == [];
    assert [t, t][..1] == [t];
    assert [t][..0] == [];
    assert Count(t, [t, t]) == 2;
    assert Repeat(EntryOf(r), 2) == [EntryOf(r), EntryOf(r)] by {
      assert Repeat(EntryOf(r), 1) == [EntryOf(r)];
    }
    assert EntriesFor(t, [r]) == EntriesFor(t, []) + Repeat(EntryOf(r), Count(t, [t, t]));
  }
}
