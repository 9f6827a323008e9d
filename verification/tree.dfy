/**
  The recursive directory search (step3). The walk itself is outside the
  model: it comes in as the sequence of entries it produced, in walk order.
 */
module Tree {
  import opened Text
  import opened Filter
  import opened Search

  /** One item of the walk: a walk error, an entry that is not a regular file, or a file and what reading it gave. */
  datatype Entry = WalkFailed | NonFile(path: string) | File(path: string, read: ReadOutcome)

  /** An entry whose lines are searched: a regular file that could be read. */
  predicate Searchable(e: Entry) {
    e.File? && e.read.Read?
  }

  /** One output line of step3: the file's path, a colon and a space, then the matching line. */
  function Record(path: string, line: string): string {
    path + ": " + line
  }

  /** Each line tagged with the path of its file. */
  function Tag(path: string, ls: seq<string>): (rs: seq<string>)
    ensures |rs| == |ls|
    ensures forall k :: 0 <= k < |ls| ==> rs[k] == Record(path, ls[k])
  {
    seq(|ls|, k requires 0 <= k < |ls| => Record(path, ls[k]))
  }

  /** The records one walk entry contributes: the tagged matching lines of a readable file, nothing otherwise. */
  function EntryRecords(e: Entry, pattern: string): seq<string> {
    if Searchable(e) then Tag(e.path, Select(Lines(e.read.content), Literal(pattern))) else []
  }

  /** The lists `f` gives for the items of `xs`, concatenated in order. */
  function ConcatMap<T>(xs: seq<T>, f: T -> seq<string>): seq<string> {
    if xs == [] then []
    else ConcatMap(xs[..|xs| - 1], f) + f(xs[|xs| - 1])
  }

  /** Mapping a sequence in two parts gives the two parts' lists one after the other. */
  lemma {:induction false} ConcatMapAppend<T>(a: seq<T>, b: seq<T>, f: T -> seq<string>)
    ensures ConcatMap(a + b, f) == ConcatMap(a, f) + ConcatMap(b, f)
    decreases |b|
  {
    if b == [] {
      assert a + b == a;
    } else {
      var b0 := b[..|b| - 1];
      ConcatMapAppend(a, b0, f);
      var ab := a + b;
      assert ab[..|ab| - 1] == a + b0;
      assert ab[|ab| - 1] == b[|b| - 1];
    }
  }

  /** The records of every entry of the walk. */
  function Records(pattern: string): Entry -> seq<string> {
    e => EntryRecords(e, pattern)
  }

  /** step3 over the walked entries, in walk order. */
  function TreeSearch(entries: seq<Entry>, pattern: string): seq<string> {
    ConcatMap(entries, Records(pattern))
  }

  /** The readable files of a walk, in walk order. */
  function Readable(entries: seq<Entry>): seq<Entry> {
    Select(entries, Searchable)
  }

  /** The loop of step3 over the walk entries: failed entries are skipped and the search goes on. */
  method ScanTree(entries: seq<Entry>, pattern: string) returns (out: seq<string>)
    ensures out == TreeSearch(entries, pattern)
  {
    out := [];
    for i := 0 to |entries|
      invariant out == TreeSearch(entries[..i], pattern)
    {
      TreeSearchStep(entries, i, pattern);
      var e := entries[i];
      if e.WalkFailed? || e.NonFile? || e.read.ReadFailed? {
        continue;
      }
      var rs := ScanFileRecords(e.path, e.read.content, pattern);
      out := out + rs;
    }
    assert entries[..|entries|] == entries;
  }

  /** The inner loop of step3 over one readable file's lines: a record for each line holding the pattern. */
  method ScanFileRecords(path: string, content: string, pattern: string) returns (rs: seq<string>)
    ensures rs == EntryRecords(File(path, Read(content)), pattern)
  {
    var ls := Lines(content);
    rs := [];
    for j := 0 to |ls|
      invariant rs == Tag(path, Select(ls[..j], Literal(pattern)))
    {
      assert ls[..j + 1][..j] == ls[..j];
      if Contains(ls[j], pattern) {
        rs := rs + [Record(path, ls[j])];
      }
    }
    assert ls[..|ls|] == ls;
  }

  lemma TreeSearchStep(entries: seq<Entry>, i: nat, pattern: string)
    requires i < |entries|
    ensures TreeSearch(entries[..i + 1], pattern) == TreeSearch(entries[..i], pattern) + EntryRecords(entries[i], pattern)
  {
    assert entries[..i + 1][..i] == entries[..i];
  }

  /** Searching a walk in two parts gives the two parts' records one after the other. */
  lemma TreeSearchConcat(a: seq<Entry>, b: seq<Entry>, pattern: string)
    ensures TreeSearch(a + b, pattern) == TreeSearch(a, pattern) + TreeSearch(b, pattern)
  {
    ConcatMapAppend(a, b, Records(pattern));
  }

  /**
    A walk error, a non-file or an unreadable file contributes nothing and
    does not stop the search: removing it from anywhere in the walk leaves
    the output unchanged.
   */
  lemma SkipsFailedEntry(a: seq<Entry>, e: Entry, b: seq<Entry>, pattern: string)
    requires !Searchable(e)
    ensures TreeSearch(a + [e] + b, pattern) == TreeSearch(a + b, pattern)
  {
    TreeSearchConcat(a + [e], b, pattern);
    TreeSearchConcat(a, [e], pattern);
    TreeSearchConcat(a, b, pattern);
    assert TreeSearch([e], pattern) == TreeSearch([], pattern) + [];
  }

  /** The output depends on the readable files alone. */
  lemma {:induction false} OnlyReadableFilesCount(entries: seq<Entry>, pattern: string)
    ensures TreeSearch(entries, pattern) == TreeSearch(Readable(entries), pattern)
  {
    if entries != [] {
      var n := |entries|;
      var init, last := entries[..n - 1], entries[n - 1];
      OnlyReadableFilesCount(init, pattern);
      var tail := if Searchable(last) then [last] else [];
      TreeSearchConcat(Readable(init), tail, pattern);
      if Searchable(last) {
        assert TreeSearch(tail, pattern) == TreeSearch([], pattern) + EntryRecords(last, pattern);
      }
    }
  }

  /**
    One readable file yields, in line order, one record `path: line` for
    each line of the file in which the pattern occurs, and nothing else.
   */
  lemma SingleFileRecords(path: string, content: string, pattern: string)
    ensures
      var out, ls := TreeSearch([File(path, Read(content))], pattern), Lines(content);
      var idx := KeptIndices(ls, Literal(pattern));
      && |out| == |idx|
      && (forall k, m :: 0 <= k < m < |idx| ==> idx[k] < idx[m])
      && (forall k :: 0 <= k < |idx| ==> 0 <= idx[k] < |ls| && out[k] == Record(path, ls[idx[k]]))
      && (forall i :: 0 <= i < |ls| ==> (i in idx <==> exists j :: OccursAt(pattern, ls[i], j)))
  {
    var e := File(path, Read(content));
    assert TreeSearch([e], pattern) == TreeSearch([], pattern) + EntryRecords(e, pattern);
    SelectEnumerates(Lines(content), Literal(pattern));
  }

  /**
    The search of a walk is the concatenation, in walk order, of the
    records of its readable files, and those are exactly the searchable
    entries of the walk at strictly increasing positions.
   */
  lemma TreeSearchFiles(entries: seq<Entry>, pattern: string)
    ensures
      var fs, idx := Readable(entries), KeptIndices(entries, Searchable);
      && TreeSearch(entries, pattern) == ConcatMap(fs, Records(pattern))
      && Enumerates(idx, entries, Searchable)
      && |fs| == |idx|
      && forall k :: 0 <= k < |fs| ==> fs[k] == entries[idx[k]]
  {
    OnlyReadableFilesCount(entries, pattern);
    SelectEnumerates(entries, Searchable);
  }
}
