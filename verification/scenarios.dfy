/**
  Worked examples of the search steps on small inputs: a three-line file
  searched plainly and inverted, and a walk of two readable files with an
  unreadable file and a walk error between them.
 */
module Scenarios {
  import opened Text
  import opened Filter
  import opened Search
  import opened Tree

  /** The three-line file "apple", "banana", "grape", with a final line that has no terminator. */
  const Fruit: string := "apple\nbanana\ngrape"

  /** The lines of `Fruit`. */
  const FruitList: seq<string> := ["apple", "banana", "grape"]

  lemma FruitLines()
    ensures Lines(Fruit) == FruitList
  {
    var ls, es := ["apple", "banana", "grape"], ["\n", "\n", ""];
    assert Unsplit(ls, es) == "apple" + "\n" + Unsplit(ls[1..], es[1..]);
    assert Unsplit(ls[1..], es[1..]) == "banana" + "\n" + Unsplit(ls[2..], es[2..]);
    assert Unsplit(ls[2..], es[2..]) == "grape" + "" + [];
    assert Unsplit(ls, es) == Fruit;
    assert Terminated(ls[2], es[2], true) by {
      assert "grape"[4] != '\n';
    }
    LinesOfUnsplit(ls, es);
  }

  /** A pattern holding a character the line lacks does not occur in the line. */
  lemma MissingCharacter(line: string, pat: string, c: char)
    requires c in pat && c !in line
    ensures !Contains(line, pat)
  {
  }

  /** The selections of the fruit lines for "an" and for its inversion. */
  lemma FruitSelect()
    ensures Select(FruitList, Literal("an")) == ["banana"]
    ensures Select(FruitList, Inverted("an")) == ["apple", "grape"]
  {
    var ls := FruitList;
    assert "banana"[1..3] == "an";
    assert OccursAt("an", "banana", 1);
    assert 'n' !in "apple" && 'n' !in "grape";
    MissingCharacter(ls[0], "an", 'n');
    MissingCharacter(ls[2], "an", 'n');
    assert ls[..2][..1] == ls[..1] == ["apple"];
    assert ls[..2] == ["apple", "banana"];
    assert ls[..1][..0] == [];
    var lit, inv := Literal("an"), Inverted("an");
    assert !lit(ls[0]) && lit(ls[1]) && !lit(ls[2]);
    assert Select(ls[..1], lit) == [];
    assert Select(ls[..2], lit) == ["banana"];
    assert Select(ls[..1], inv) == ["apple"];
    assert Select(ls[..2], inv) == ["apple"];
  }

  /** Searching the fruit file for "an" prints "banana" alone; the inverted search prints the other two. */
  lemma FruitSearch()
    ensures LiteralSearch("an", Read(Fruit)) == Printed(["banana"])
    ensures InvertedSearch("an", Read(Fruit)) == Printed(["apple", "grape"])
  {
    FruitLines();
    FruitSelect();
  }

  /** Two failed entries between two others drop out of the search. */
  lemma SkipsTwoFailures(a: Entry, w: Entry, u: Entry, b: Entry, pattern: string)
    requires !Searchable(w) && !Searchable(u)
    ensures TreeSearch([a, w, u, b], pattern) == TreeSearch([a], pattern) + TreeSearch([b], pattern)
  {
    SkipsFailedEntry([a, w], u, [b], pattern);
    SkipsFailedEntry([a], w, [b], pattern);
    TreeSearchConcat([a], [b], pattern);
    assert [a, w, u, b] == [a, w] + [u] + [b];
    assert [a, w] + [b] == [a] + [w] + [b];
  }

  /** A walk of a.txt, a walk error, an unreadable c.txt and b.txt, in that order. */
  const Walk: seq<Entry> := [File("a.txt", Read("foo")), WalkFailed, File("c.txt", ReadFailed), File("b.txt", Read("foobar"))]

  lemma FileA()
    ensures TreeSearch([File("a.txt", Read("foo"))], "foo") == ["a.txt: foo"]
  {
    SingleFile("a.txt", "foo", "foo");
    assert Record("a.txt", "foo") == "a.txt: foo";
  }

  lemma FileB()
    ensures TreeSearch([File("b.txt", Read("foobar"))], "foo") == ["b.txt: foobar"]
  {
    assert "foobar"[0..3] == "foo";
    SingleFile("b.txt", "foobar", "foo");
    assert Record("b.txt", "foobar") == "b.txt: foobar";
  }

  /**
    A walk with a walk error and an unreadable file between two readable
    files: the two matches come out, in walk order, and the failures add
    nothing.
   */
  lemma WalkSearch()
    ensures TreeSearch(Walk, "foo") == ["a.txt: foo", "b.txt: foobar"]
  {
    FileA();
    FileB();
    SkipsTwoFailures(Walk[0], Walk[1], Walk[2], Walk[3], "foo");
  }

  /** A one-line file whose only line holds the pattern gives the one record for it. */
  lemma SingleFile(path: string, line: string, pattern: string)
    requires line != [] && '\n' !in line
    requires OccursAt(pattern, line, 0)
    ensures TreeSearch([File(path, Read(line))], pattern) == [Record(path, line)]
  {
    assert Terminated(line, "", true);
    assert WellFormed([line], [""]);
    assert Unsplit([line], [""]) == line + "" + [];
    LinesOfUnsplit([line], [""]);
    var e := File(path, Read(line));
    assert TreeSearch([e], pattern) == TreeSearch([], pattern) + EntryRecords(e, pattern);
    assert Select([line], Literal(pattern)) == Select([], Literal(pattern)) + [line];
  }
}
