/**
  Text primitives the search steps are built from: the line splitting of Rust's
  `str::lines` and the substring test of `str::contains`, over strings as
  sequences of characters.
 */
module Text {

  /** Position of the first line feed in `s`, or `|s|` when there is none. */
  function NewlineIndex(s: string): (k: nat)
    ensures k <= |s|
    ensures k < |s| ==> s[k] == '\n'
    ensures forall j :: 0 <= j < k ==> s[j] != '\n'
  {
    if s == [] || s[0] == '\n' then 0 else 1 + NewlineIndex(s[1..])
  }

  /** The first line feed of `s` sits at `k` (or there is none, when `k == |s|`). */
  lemma NewlineIndexIs(s: string, k: nat)
    requires k <= |s|
    requires k < |s| ==> s[k] == '\n'
    requires forall j :: 0 <= j < k ==> s[j] != '\n'
    ensures NewlineIndex(s) == k
  {
  }

  predicate EndsWithCR(t: string) {
    0 < |t| && t[|t| - 1] == '\r'
  }

  /** The text before a line feed, with one carriage return removed from its end. */
  function DropCR(piece: string): (t: string)
    ensures t <= piece
  {
    if EndsWithCR(piece) then piece[..|piece| - 1] else piece
  }

  /**
    The lines of `s`, as `str::lines` yields them: `s` is cut at every line
    feed, a carriage return right before a line feed is removed with it, a
    final line without a terminator is still a line, and a terminator at the
    very end does not start an empty line.
   */
  function Lines(s: string): (ls: seq<string>)
    ensures forall i :: 0 <= i < |ls| ==> '\n' !in ls[i]
    ensures ls == [] <==> s == []
    decreases |s|
  {
    if s == [] then []
    else
      var k := NewlineIndex(s);
      if k == |s| then [s]
      else
        assert forall c :: c in DropCR(s[..k]) ==> c in s[..k];
        [DropCR(s[..k])] + Lines(s[k + 1..])
  }

  /** The terminator `Lines` removed after each line: "\r\n", "\n", or "" after a final unterminated line. */
  function Endings(s: string): seq<string>
    decreases |s|
  {
    if s == [] then []
    else
      var k := NewlineIndex(s);
      if k == |s| then [""]
      else [if EndsWithCR(s[..k]) then "\r\n" else "\n"] + Endings(s[k + 1..])
  }

  /** Each line followed by its terminator, all concatenated. */
  function Unsplit(ls: seq<string>, es: seq<string>): string
    requires |ls| == |es|
  {
    if ls == [] then [] else ls[0] + es[0] + Unsplit(ls[1..], es[1..])
  }

  /**
    `l` followed by `e` is one line of a text that `Lines` gives back
    unchanged: `l` holds no line feed, and `e` is "\r\n", or "\n" when `l`
    does not end in a carriage return, or nothing after a non-empty last line.
   */
  ghost predicate Terminated(l: string, e: string, last: bool) {
    && '\n' !in l
    && (|| e == "\r\n"
        || (e == "\n" && !EndsWithCR(l))
        || (e == "" && last && l != []))
  }

  ghost predicate WellFormed(ls: seq<string>, es: seq<string>) {
    && |ls| == |es|
    && forall i :: 0 <= i < |ls| ==> Terminated(ls[i], es[i], i == |ls| - 1)
  }

  /** A well-formed pair stays well-formed with one more terminated line in front. */
  lemma WellFormedCons(l: string, e: string, ls: seq<string>, es: seq<string>)
    requires Terminated(l, e, ls == [])
    requires WellFormed(ls, es)
    ensures WellFormed([l] + ls, [e] + es)
  {
    var ls', es' := [l] + ls, [e] + es;
    forall i | 0 <= i < |ls'|
      ensures Terminated(ls'[i], es'[i], i == |ls'| - 1)
    {
      if 0 < i {
        assert ls'[i] == ls[i - 1] && es'[i] == es[i - 1];
      }
    }
  }

  /** The tail of a well-formed pair is well-formed. */
  lemma WellFormedTail(ls: seq<string>, es: seq<string>)
    requires WellFormed(ls, es)
    requires ls != []
    ensures Terminated(ls[0], es[0], |ls| == 1)
    ensures WellFormed(ls[1..], es[1..])
  {
    assert Terminated(ls[0], es[0], 0 == |ls| - 1);
    forall i | 0 <= i < |ls| - 1
      ensures Terminated(ls[1..][i], es[1..][i], i == |ls| - 2)
    {
      assert Terminated(ls[i + 1], es[i + 1], i + 1 == |ls| - 1);
    }
  }

  lemma UnsplitCons(l: string, e: string, ls: seq<string>, es: seq<string>)
    requires |ls| == |es|
    ensures Unsplit([l] + ls, [e] + es) == l + e + Unsplit(ls, es)
  {
    assert ([l] + ls)[1..] == ls;
    assert ([e] + es)[1..] == es;
  }

  /** The first step of `Lines` on a text holding a line feed: one line, its terminator, and the rest. */
  lemma SplitFirst(s: string) returns (l: string, e: string, rest: string)
    requires NewlineIndex(s) < |s|
    ensures s == l + e + rest
    ensures Terminated(l, e, false)
    ensures Lines(s) == [l] + Lines(rest)
    ensures Endings(s) == [e] + Endings(rest)
  {
    var k := NewlineIndex(s);
    rest := s[k + 1..];
    l := DropCR(s[..k]);
    e := if EndsWithCR(s[..k]) then "\r\n" else "\n";
    assert l + e == s[..k + 1];
    assert s == s[..k + 1] + rest;
    assert forall c :: c in l ==> c in s[..k];
  }

  /** Splitting loses nothing but the terminators: lines and terminators rebuild the text. */
  lemma {:induction false} LinesUnsplit(s: string)
    ensures WellFormed(Lines(s), Endings(s))
    ensures Unsplit(Lines(s), Endings(s)) == s
    decreases |s|
  {
    if s == [] {
    } else if NewlineIndex(s) == |s| {
      assert Lines(s) == [s] && Endings(s) == [""];
      UnsplitCons(s, "", [], []);
    } else {
      var l, e, rest := SplitFirst(s);
      LinesUnsplit(rest);
      WellFormedCons(l, e, Lines(rest), Endings(rest));
      UnsplitCons(l, e, Lines(rest), Endings(rest));
    }
  }

  /** Splitting a terminated line followed by more text yields that line, then the lines of the rest. */
  lemma SplitTerminated(l: string, e: string, r: string)
    requires Terminated(l, e, r == [])
    ensures Lines(l + e + r) == [l] + Lines(r)
    ensures Endings(l + e + r) == [e] + Endings(r)
  {
    var s := l + e + r;
    if e == "" {
      assert s == l;
      NewlineIndexIs(s, |s|);
      assert Lines(s) == [l] + [];
      assert Endings(s) == [e] + [];
    } else {
      var k := |l| + |e| - 1;
      assert s[k] == '\n';
      forall j | 0 <= j < k
        ensures s[j] != '\n'
      {
        if j < |l| {
          assert s[j] == l[j];
        }
      }
      NewlineIndexIs(s, k);
      assert s[k + 1..] == r;
      if e == "\n" {
        assert s[..k] == l;
      } else {
        assert s[..k] == l + "\r";
        assert DropCR(s[..k]) == l;
      }
    }
  }

  /** Rebuilding well-formed lines and splitting the result gives the same lines and terminators back. */
  lemma {:induction false} LinesOfUnsplit(ls: seq<string>, es: seq<string>)
    requires WellFormed(ls, es)
    ensures Lines(Unsplit(ls, es)) == ls
    ensures Endings(Unsplit(ls, es)) == es
  {
    if ls != [] {
      WellFormedTail(ls, es);
      LinesOfUnsplit(ls[1..], es[1..]);
      var r := Unsplit(ls[1..], es[1..]);
      assert ls[1..] == [] ==> r == [];
      SplitTerminated(ls[0], es[0], r);
      assert ls == [ls[0]] + ls[1..];
      assert es == [es[0]] + es[1..];
    }
  }

  /** `pat` occurs in `line` starting at position `i`. */
  ghost predicate OccursAt(pat: string, line: string, i: int) {
    0 <= i && i + |pat| <= |line| && line[i..i + |pat|] == pat
  }

  /** When `pat` is not a prefix of `line`, its occurrences are those in `line` without its first character. */
  lemma OccursAfterFirst(line: string, pat: string)
    requires |pat| <= |line|
    requires line[..|pat|] != pat
    ensures 0 < |line|
    ensures (exists i :: OccursAt(pat, line, i)) <==> (exists i :: OccursAt(pat, line[1..], i))
  {
    if i :| OccursAt(pat, line, i) {
      assert i != 0;
      assert line[1..][i - 1..i - 1 + |pat|] == line[i..i + |pat|];
      assert OccursAt(pat, line[1..], i - 1);
    }
    if i :| OccursAt(pat, line[1..], i) {
      assert line[1..][i..i + |pat|] == line[i + 1..i + 1 + |pat|];
      assert OccursAt(pat, line, i + 1);
    }
  }

  /** `line.contains(pat)`: `pat` occurs in `line` as a contiguous piece. */
  function Contains(line: string, pat: string): (b: bool)
    ensures b <==> exists i :: OccursAt(pat, line, i)
    decreases |line|
  {
    if |line| < |pat| then false
    else if line[..|pat|] == pat then assert OccursAt(pat, line, 0); true
    else OccursAfterFirst(line, pat); Contains(line[1..], pat)
  }
}
