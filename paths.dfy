/** The two path manipulations of the tag generator: the `./` strip that
    turns a discovered file path into a link target, and Node's
    `path.basename(p, ".md")` that gives the link label. */
module Paths {

  const DotSlash: string := "./"
  const MarkdownExt: string := ".md"

  predicate HasPrefix(s: string, p: string) {
    |p| <= |s| && s[..|p|] == p
  }

  predicate HasSuffix(s: string, p: string) {
    |p| <= |s| && s[|s| - |p|..] == p
  }

  /** `fullPath.replace(/^\.\//, "")`: one leading `./` removed, if present. */
  function RelativePath(fullPath: string): (r: string)
    ensures HasPrefix(fullPath, DotSlash) ==> fullPath == DotSlash + r
    ensures !HasPrefix(fullPath, DotSlash) ==> r == fullPath
  {
    if HasPrefix(fullPath, DotSlash) then fullPath[2..] else fullPath
  }

  /** Only one `./` goes: a path that starts `././` keeps its second `./`. */
  lemma RelativePathStripsOnce(rest: string)
    ensures RelativePath(DotSlash + rest) == rest
    ensures RelativePath(DotSlash + DotSlash + rest) == DotSlash + rest
  {
    assert (DotSlash + rest)[..2] == DotSlash;
    assert (DotSlash + DotSlash + rest)[..2] == DotSlash;
    assert (DotSlash + DotSlash + rest)[2..] == DotSlash + rest;
  }

  /** The part of `p` after its last `/`. */
  function AfterLastSlash(p: string): (r: string)
    ensures '/' !in r
  {
    if p == [] || p[|p| - 1] == '/' then []
    else AfterLastSlash(p[..|p| - 1]) + [p[|p| - 1]]
  }

  /** It is a suffix of `p`, and is all of `p` or follows a `/`. */
  lemma {:induction false} AfterLastSlashSpec(p: string)
    ensures HasSuffix(p, AfterLastSlash(p))
    ensures |AfterLastSlash(p)| == |p| || p[|p| - |AfterLastSlash(p)| - 1] == '/'
  {
    if p != [] && p[|p| - 1] != '/' {
      var q := p[..|p| - 1];
      var r := AfterLastSlash(q);
      AfterLastSlashSpec(q);
      assert p[|p| - |r| - 1..] == q[|q| - |r|..] + [p[|p| - 1]];
    }
  }

  /** `path.basename(p, ".md")`: the last path component, with a trailing
      `.md` removed unless that would leave nothing of the component; a path
      that is exactly `.md` gives the empty string. */
  function Basename(p: string): (r: string)
    ensures '/' !in r
  {
    if p == MarkdownExt then []
    else
      var b := AfterLastSlash(p);
      if |b| > |MarkdownExt| && HasSuffix(b, MarkdownExt) then
        var r := b[..|b| - |MarkdownExt|];
        assert forall k :: 0 <= k < |r| ==> r[k] == b[k];
        r
      else b
  }

  /** The label is the last path component, with at most a trailing `.md`
      removed, so it ends the path, possibly followed by `.md`. */
  lemma BasenameSuffix(p: string)
    ensures AfterLastSlash(p) == Basename(p) || AfterLastSlash(p) == Basename(p) + MarkdownExt
    ensures HasSuffix(p, Basename(p) + MarkdownExt) || HasSuffix(p, Basename(p))
  {
    BasenameComponent(p);
    AfterLastSlashSpec(p);
  }

  /** The case analysis of `Basename` against the last component. */
  lemma BasenameComponent(p: string)
    ensures AfterLastSlash(p) == Basename(p) || AfterLastSlash(p) == Basename(p) + MarkdownExt
  {
    var b := AfterLastSlash(p);
    if p == MarkdownExt {
      AfterLastSlashOfExt();
      assert Basename(p) + MarkdownExt == b;
    } else if |b| > |MarkdownExt| && HasSuffix(b, MarkdownExt) {
      assert Basename(p) == b[..|b| - |MarkdownExt|];
      assert Basename(p) + MarkdownExt == b;
    }
  }

  /** A path that is exactly `.md` is its own last component. */
  lemma AfterLastSlashOfExt()
    ensures AfterLastSlash(MarkdownExt) == MarkdownExt
  {
    assert MarkdownExt[..2] == ".m" && ".m"[..1] == "." && "."[..0] == [];
    assert AfterLastSlash(".") == ".";
    assert AfterLastSlash(".m") == ".m";
  }

  /** The label of a note file `dir/name.md` is `name`. */
  lemma BasenameOfNote(dir: string, name: string)
    requires name != [] && '/' !in name
    ensures Basename(dir + "/" + name + MarkdownExt) == name
  {
    var p := dir + "/" + name + MarkdownExt;
    var tail := name + MarkdownExt;
    assert '/' !in tail by {
      assert forall k :: 0 <= k < |tail| ==> tail[k] == (if k < |name| then name[k] else MarkdownExt[k - |name|]);
    }
    assert p == dir + "/" + tail;
    AfterLastSlashAfter(dir, tail);
    assert tail[..|tail| - 3] == name;
  }

  /** What follows the last `/` is exactly the slash-free tail. */
  lemma {:induction false} AfterLastSlashAfter(dir: string, tail: string)
    requires '/' !in tail
    ensures AfterLastSlash(dir + "/" + tail) == tail
    decreases |tail|
  {
    var p := dir + "/" + tail;
    if tail == [] {
      assert p[|p| - 1] == '/';
    } else {
      var init := tail[..|tail| - 1];
      AfterLastSlashAfter(dir, init);
      assert p[..|p| - 1] == dir + "/" + init;
      assert init + [tail[|tail| - 1]] == tail;
    }
  }
}
