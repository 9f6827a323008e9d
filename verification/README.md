# A verified model of a small grep tool's line-filtering engine

The tool (`src/main.rs`) is a command-line text search. `main` picks one of
seven steps from its argument list:

- `step1` prints a file verbatim.
- `step2` prints the lines of a file that contain a pattern.
- `step3` walks a directory tree and prints `path: line` for every matching line of every readable file.
- `step4` prints the lines that do not contain the pattern.
- `step5` and `step6` print the lines a regular expression matches.
- `final` does the same, with an optional `(?i)` flag for case-insensitive matching.

Every search step (step2, step4, step5, step6 and final; step3 for each
file, with the path in front of each record) shares one engine: split the
text with `str::lines`, test each line, and print the accepted lines in
order. step1 does not split its text. It prints the whole content
(`Cli.DumpFile`). This project models that engine as pure Dafny functions
over `string` (`seq<char>`). It proves that each search step prints exactly
the ordered subsequence of lines its test accepts.
It also proves these facts:

- plain and inverted search partition the lines;
- the line split loses nothing but the terminators;
- tree search is the concatenation of the readable files' records, with every failed entry dropped and no failure stopping the walk;
- the argument dispatch selects exactly the step `args[1]` names.

Modules, one per component:

- `Text` (text.dfy): `str::lines` (`Lines`, with its terminators `Endings`), and `str::contains` (`Contains`).
- `Filter` (filter.dfy): ordered selection of the lines a predicate accepts (`Select`), with its declarative characterisation (`Enumerates`).
- `Search` (search.dfy): the single-file steps `step2`, `step4`, `step5`/`step6`, `final_step`, and the shared `for line in content.lines()` loop.
- `Tree` (tree.dfy): `step3` over an abstract walk, as a function and as the source's two nested loops.
- `Cli` (cli.dfy): the dispatch in `main`, and `Run`, which executes the selected step.
- `Scenarios` (scenarios.dfy): worked examples. One is a three-line file searched for `an`. The other is a walk of two readable files with a walk error and an unreadable file between them.

The outside world comes in as values:

- A file read is a `ReadOutcome`: `Read(content)` or `ReadFailed`.
- The directory walk is the sequence of `Entry` values it produced, in walk order. An entry is `WalkFailed`, `NonFile(path)` or `File(path, read)`.
- `Regex::new` is a `compile` function parameter. It returns `Compiled(isMatch)` with an uninterpreted line predicate, or `SyntaxError`.
- In `Run`, the parameters `read`, `walk` and `compile` give these outcomes for a named file, directory or pattern.
- Printed output is the returned sequence of records.
- An `.expect` panic is an `Aborted(reason)` outcome.

## Model

| member | source | states |
|---|---|---|
| Text.Lines | src/main.rs:19 | no line yielded by `content.lines()` holds a line feed, and the text yields no lines exactly when it is empty |
| Text.LinesUnsplit | src/main.rs:19 | the lines, each followed by the terminator removed after it (`\r\n`, `\n`, or nothing after a final unterminated line), concatenate back to the whole text; that pairing is well-formed |
| Text.LinesOfUnsplit | src/main.rs:19 | conversely, joining any well-formed lines and terminators and splitting the result gives back the same lines and terminators: a carriage return before a line feed is dropped, a final unterminated line is kept, and a final terminator starts no empty line |
| Text.Contains | src/main.rs:20 | `line.contains(pattern)` holds exactly when the pattern occurs at some position of the line as a contiguous piece (so always for the empty pattern) |
| Filter.Select | src/main.rs:19-23 | the printed lines are no more than the input lines; each one is accepted by the test and is one of the input lines |
| Filter.SelectEnumerates | src/main.rs:19-23 | the printed lines are exactly the ordered subsequence of accepted lines: the k-th printed line is the line at the k-th accepted position, the positions strictly increase, and a position is listed iff its line is accepted |
| Filter.SelectPartition | src/main.rs:58-62 | a test and its negation split the lines: the two outputs together hold every line exactly as often as the input, their lengths add up to the number of lines, and each position is kept by exactly one of them |
| Filter.SelectAll | src/main.rs:20 | a test that accepts every line prints all lines unchanged |
| Filter.SelectNone | src/main.rs:59 | a test that rejects every line prints nothing |
| Search.Literal | src/main.rs:20 | the test of step2 accepts a line iff the pattern occurs in it |
| Search.Inverted | src/main.rs:59 | the test of step4 accepts a line iff the pattern occurs nowhere in it |
| Search.ScanLines | src/main.rs:19-23 | the imperative loop over `content.lines()` prints exactly the selection of accepted lines |
| Search.ScanFileOutcome | src/main.rs:16-23 | a single-file scan aborts exactly when the read failed (as unreadable); otherwise it prints the ordered subsequence of the file's lines that the test accepts |
| Search.LiteralSearchLines | src/main.rs:15-24 | step2 on a readable file prints, in order, exactly the lines in which the pattern occurs as a contiguous piece |
| Search.InvertedSearchLines | src/main.rs:54-63 | step4 on a readable file prints, in order, exactly the lines in which the pattern does not occur |
| Search.LiteralInvertedPartition | src/main.rs:54-63 | step2 and step4 on the same file print complementary lines: every line is printed by exactly one of them |
| Search.EmptyPatternSearch | src/main.rs:19-23 | with the empty pattern step2 prints every line and step4 prints none |
| Search.RegexSearchOutcome | src/main.rs:66-80 | step5/step6 compile first: an invalid expression aborts whatever the file; a valid one aborts only on a read failure, and otherwise prints, in order, exactly the lines the expression matches |
| Search.CasePattern | src/main.rs:99-103 | with the case flag the compiled expression is `(?i)` followed by the unchanged pattern; without it, the pattern itself |
| Search.FinalSearchOutcome | src/main.rs:97-118 | final_step compiles the pattern, behind `(?i)` when case is ignored, before reading: an invalid expression aborts whatever the file holds; a valid one aborts only on a read failure, and otherwise prints, in order, exactly the lines the compiled expression matches |
| Tree.ScanTree | src/main.rs:29-50 | the loop over the walk entries, skipping failures with `continue`, prints exactly the tree search of the walk |
| Tree.ScanFileRecords | src/main.rs:44-48 | the inner loop over one readable file prints exactly the `path: line` records of its matching lines |
| Tree.TreeSearchConcat | src/main.rs:29-50 | searching a walk in two parts prints the first part's records and then the second's |
| Tree.SkipsFailedEntry | src/main.rs:30-41 | a walk error, a non-file or an unreadable file anywhere in the walk contributes nothing and does not stop the entries after it |
| Tree.OnlyReadableFilesCount | src/main.rs:30-41 | the output of a walk equals that of its readable files alone |
| Tree.SingleFileRecords | src/main.rs:44-48 | one readable file yields, in line order, exactly one record `path + ": " + line` for each line holding the pattern |
| Tree.TreeSearchFiles | src/main.rs:29-50 | the tree search is the concatenation, in walk order, of the records of the readable files; those files are exactly the searchable entries of the walk, in their walk order |
| Cli.Dispatch | src/main.rs:147-163 | help iff there are fewer than two arguments, `-h` is any argument, or the step name is unknown; otherwise the command is the one `args[1]` names, its operands are `args[2]` onward, and `final` ignores case iff `-i` is any argument |
| Cli.Run | src/main.rs:144-164 | running `main`: help exactly as dispatched; each step name runs its step on the read file, walk or compiled pattern it names; tree search never aborts; a single-file step aborts on a read failure; an invalid expression aborts step5/step6 |
| Scenarios.FruitLines | src/main.rs:19 | the text `apple\nbanana\ngrape` splits into the three lines `apple`, `banana`, `grape` |
| Scenarios.FruitSearch | src/main.rs:15-24 | searching that file for `an` prints `banana` alone; the inverted search prints `apple` and `grape` |
| Scenarios.WalkSearch | src/main.rs:27-51 | a walk of `a.txt` (`foo`), a walk error, an unreadable file and `b.txt` (`foobar`), searched for `foo`, prints `a.txt: foo` then `b.txt: foobar` |

## Left out

- The regular-expression engine (the `regex` crate) is not part of this model. A compiled expression is an uninterpreted line predicate. Facts that belong to the engine are not stated: case-insensitive matching under `(?i)`, and `^`/`$` anchoring per line. step5 and step6 are the same code and share `Search.RegexSearch`.
- The directory walk (`WalkDir`) is not part of this model. Its traversal order, symbolic-link handling and file-type test are taken as given by the entry sequence.
- File reading and its UTF-8 validation (`fs::read_to_string`) are not part of this model. Only the success or failure outcome is modelled.
- Text is a sequence of Unicode characters, not UTF-8 bytes. For valid UTF-8, substring containment over characters agrees with containment over bytes.
- `path.display()` is modelled as the path string itself. Its lossy conversion of non-UTF-8 paths is not modelled.
- Standard output is not modelled. Each printed line is one record; the line feed `println!` adds after each record is not part of it.
- `.expect` panics become an `Aborted` outcome. Their messages and the process exit are not modelled.
- The help text (`print_help`) is not modelled. Help is the `HelpShown` response.
- step1 is modelled only as printing the whole text as one record (`Cli.DumpFile`).
- Indexing `args[2]` or `args[3]` when they are missing panics in the source. It is excluded by the precondition `Cli.HasOperands` rather than modelled.
- `Text.Lines` follows the current `str::lines` of the Rust standard library: a carriage return at the very end of a text without a final line feed stays in the last line. Older releases of the standard library removed it too.
- `-h` and `-i` are looked for among all arguments. That includes the program name and the pattern position, so the pattern `-h` shows help, and the pattern `-i` turns on case-insensitivity for `final`. The model keeps this behaviour.
