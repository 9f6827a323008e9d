/**
  The single-file search steps: plain substring search (step2), inverted
  search (step4), regular-expression search (step5 and step6) and the
  optionally case-insensitive search (final_step). Reading the file and
  compiling the regular expression happen outside the model; their outcomes
  come in as values.
 */
module Search {
  import opened Text
  import opened Filter

  /** What `fs::read_to_string` gave back for one file. */
  datatype ReadOutcome = Read(content: string) | ReadFailed

  /** What `Regex::new` gave back for one pattern: a match test on lines, or a syntax error. */
  datatype Compiled = Compiled(isMatch: string -> bool) | SyntaxError

  /** The two failures that end a single-file search (the source's `.expect` calls). */
  datatype Fatal = InvalidRegex | Unreadable

  /** A finished search printed these records, one per output line; an aborted one printed nothing. */
  datatype Outcome = Printed(records: seq<string>) | Aborted(reason: Fatal)

  /** The literal match test of step2: the pattern occurs somewhere in the line. */
  function Literal(pattern: string): (keep: string -> bool)
    ensures forall line :: keep(line) <==> exists i :: OccursAt(pattern, line, i)
  {
    line => Contains(line, pattern)
  }

  /** The match test of step4: the pattern occurs nowhere in the line. */
  function Inverted(pattern: string): (keep: string -> bool)
    ensures forall line :: keep(line) <==> !exists i :: OccursAt(pattern, line, i)
  {
    Not(Literal(pattern))
  }

  /** Read one file and print the lines `keep` accepts; a read failure is fatal. */
  function ScanFile(file: ReadOutcome, keep: string -> bool): Outcome
  {
    match file
    case ReadFailed => Aborted(Unreadable)
    case Read(content) => Printed(Select(Lines(content), keep))
  }

  /** step2 */
  function LiteralSearch(pattern: string, file: ReadOutcome): Outcome
  {
    ScanFile(file, Literal(pattern))
  }

  /** step4 */
  function InvertedSearch(pattern: string, file: ReadOutcome): Outcome
  {
    ScanFile(file, Inverted(pattern))
  }

  /**
    step5 and step6 (the two are the same code): compile the pattern first,
    then read the file, then print the lines the expression matches.
   */
  function RegexSearch(pattern: string, compile: string -> Compiled, file: ReadOutcome): Outcome
  {
    match compile(pattern)
    case SyntaxError => Aborted(InvalidRegex)
    case Compiled(isMatch) => ScanFile(file, isMatch)
  }

  /** The expression final_step compiles: the inline flag `(?i)` in front of the pattern when case is to be ignored. */
  function CasePattern(pattern: string, caseInsensitive: bool): (r: string)
    ensures caseInsensitive ==> |r| == |pattern| + 4 && r[..4] == "(?i)" && r[4..] == pattern
    ensures !caseInsensitive ==> r == pattern
  {
    if caseInsensitive then "(?i)" + pattern else pattern
  }

  /** final_step */
  function FinalSearch(pattern: string, caseInsensitive: bool, compile: string -> Compiled, file: ReadOutcome): Outcome
  {
    RegexSearch(CasePattern(pattern, caseInsensitive), compile, file)
  }

  /** The `for line in content.lines()` loop shared by every search step except step1: print each accepted line in turn. */
  method ScanLines(content: string, keep: string -> bool) returns (out: seq<string>)
    ensures out == Select(Lines(content), keep)
  {
    var ls := Lines(content);
    out := [];
    for i := 0 to |ls|
      invariant out == Select(ls[..i], keep)
    {
      assert ls[..i + 1][..i] == ls[..i];
      if keep(ls[i]) {
        out := out + [ls[i]];
      }
    }
    assert ls[..|ls|] == ls;
  }

  /**
    A single-file scan aborts exactly when the read failed, and otherwise
    prints the ordered subsequence of the file's lines that `keep` accepts.
   */
  lemma ScanFileOutcome(file: ReadOutcome, keep: string -> bool)
    ensures ScanFile(file, keep).Aborted? <==> file.ReadFailed?
    ensures ScanFile(file, keep).Aborted? ==> ScanFile(file, keep).reason == Unreadable
    ensures file.Read? ==>
      var out, ls := ScanFile(file, keep).records, Lines(file.content);
      var idx := KeptIndices(ls, keep);
      && Enumerates(idx, ls, keep)
      && |out| == |idx|
      && forall k :: 0 <= k < |out| ==> out[k] == ls[idx[k]]
  {
    if file.Read? {
      SelectEnumerates(Lines(file.content), keep);
    }
  }

  /**
    step2 prints, in order, exactly the lines of the file in which the
    pattern occurs as a contiguous piece.
   */
  lemma LiteralSearchLines(pattern: string, content: string)
    ensures LiteralSearch(pattern, Read(content)).Printed?
    ensures
      var out, ls := LiteralSearch(pattern, Read(content)).records, Lines(content);
      var idx := KeptIndices(ls, Literal(pattern));
      && |out| == |idx|
      && (forall k, m :: 0 <= k < m < |idx| ==> idx[k] < idx[m])
      && (forall k :: 0 <= k < |idx| ==> 0 <= idx[k] < |ls| && out[k] == ls[idx[k]])
      && (forall i :: 0 <= i < |ls| ==> (i in idx <==> exists j :: OccursAt(pattern, ls[i], j)))
  {
    ScanFileOutcome(Read(content), Literal(pattern));
  }

  /**
    step4 prints, in order, exactly the lines of the file in which the
    pattern does not occur.
   */
  lemma InvertedSearchLines(pattern: string, content: string)
    ensures InvertedSearch(pattern, Read(content)).Printed?
    ensures
      var out, ls := InvertedSearch(pattern, Read(content)).records, Lines(content);
      var idx := KeptIndices(ls, Inverted(pattern));
      && |out| == |idx|
      && (forall k, m :: 0 <= k < m < |idx| ==> idx[k] < idx[m])
      && (forall k :: 0 <= k < |idx| ==> 0 <= idx[k] < |ls| && out[k] == ls[idx[k]])
      && (forall i :: 0 <= i < |ls| ==> (i in idx <==> !exists j :: OccursAt(pattern, ls[i], j)))
  {
    ScanFileOutcome(Read(content), Inverted(pattern));
  }

  /**
    step2 and step4 on the same file partition its lines: every line is
    printed by exactly one of them.
   */
  lemma LiteralInvertedPartition(pattern: string, content: string)
    ensures
      var lit, inv := LiteralSearch(pattern, Read(content)).records, InvertedSearch(pattern, Read(content)).records;
      var ls := Lines(content);
      && multiset(lit) + multiset(inv) == multiset(ls)
      && |lit| + |inv| == |ls|
      && forall i :: 0 <= i < |ls| ==>
           (i in KeptIndices(ls, Literal(pattern)) <==> i !in KeptIndices(ls, Inverted(pattern)))
  {
    SelectPartition(Lines(content), Literal(pattern));
  }

  /** With an empty pattern step2 prints every line and step4 prints none. */
  lemma EmptyPatternSearch(content: string)
    ensures LiteralSearch("", Read(content)) == Printed(Lines(content))
    ensures InvertedSearch("", Read(content)) == Printed([])
  {
    var ls := Lines(content);
    forall i | 0 <= i < |ls|
      ensures Literal("")(ls[i])
    {
      assert OccursAt("", ls[i], 0);
    }
    SelectAll(ls, Literal(""));
    SelectNone(ls, Inverted(""));
  }

  /**
    step5/step6 compile before reading: an invalid expression aborts whatever
    the file holds; a valid one aborts only on a read failure and otherwise
    prints, in order, exactly the lines the expression matches.
   */
  lemma RegexSearchOutcome(pattern: string, compile: string -> Compiled, file: ReadOutcome)
    ensures compile(pattern).SyntaxError? ==> RegexSearch(pattern, compile, file) == Aborted(InvalidRegex)
    ensures compile(pattern).Compiled? && file.ReadFailed? ==> RegexSearch(pattern, compile, file) == Aborted(Unreadable)
    ensures compile(pattern).Compiled? && file.Read? ==>
      var isMatch := compile(pattern).isMatch;
      var out, ls := RegexSearch(pattern, compile, file).records, Lines(file.content);
      var idx := KeptIndices(ls, isMatch);
      && RegexSearch(pattern, compile, file).Printed?
      && Enumerates(idx, ls, isMatch)
      && |out| == |idx|
      && forall k :: 0 <= k < |out| ==> out[k] == ls[idx[k]]
  {
    if compile(pattern).Compiled? {
      ScanFileOutcome(file, compile(pattern).isMatch);
    }
  }

  /**
    final_step compiles the pattern, behind `(?i)` when case is ignored,
    before reading: an invalid expression aborts whatever the file holds; a
    valid one aborts only on a read failure and otherwise prints, in order,
    exactly the lines the compiled expression matches.
   */
  lemma FinalSearchOutcome(pattern: string, caseInsensitive: bool, compile: string -> Compiled, file: ReadOutcome)
    ensures var re := compile(CasePattern(pattern, caseInsensitive));
      re.SyntaxError? ==> FinalSearch(pattern, caseInsensitive, compile, file) == Aborted(InvalidRegex)
    ensures var re := compile(CasePattern(pattern, caseInsensitive));
      re.Compiled? && file.ReadFailed? ==> FinalSearch(pattern, caseInsensitive, compile, file) == Aborted(Unreadable)
    ensures var re := compile(CasePattern(pattern, caseInsensitive));
      re.Compiled? && file.Read? ==>
      var out, ls := FinalSearch(pattern, caseInsensitive, compile, file).records, Lines(file.content);
      var idx := KeptIndices(ls, re.isMatch);
      && FinalSearch(pattern, caseInsensitive, compile, file).Printed?
      && Enumerates(idx, ls, re.isMatch)
      && |out| == |idx|
      && forall k :: 0 <= k < |out| ==> out[k] == ls[idx[k]]
  {
    RegexSearchOutcome(CasePattern(pattern, caseInsensitive), compile, file);
  }
}
