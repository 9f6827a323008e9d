/**
  The argument dispatch of `main`: which step the argument list selects, and
  what running it gives. The file reads, the directory walk and the
  regular-expression compiler are parameters.
 */
module Cli {
  import opened Search
  import opened Tree

  /** What `main` does with its argument list. */
  datatype Command =
    | ShowHelp
    | Dump(file: string)
    | Plain(pattern: string, file: string)
    | Recursive(pattern: string, dir: string)
    | Invert(pattern: string, file: string)
    | Regex(pattern: string, file: string)
    | Anchored(pattern: string, file: string)
    | Final(pattern: string, file: string, caseInsensitive: bool)

  /** The step names `main` recognises as its first argument after the program name. */
  const Modes: set<string> := {"step1", "step2", "step3", "step4", "step5", "step6", "final"}

  /** Help is shown for fewer than two arguments or when `-h` is any of them. */
  predicate WantsHelp(args: seq<string>) {
    |args| < 2 || "-h" in args
  }

  /**
    The operands the selected step reads are present: `step1` reads
    `args[2]`, the other steps read `args[2]` and `args[3]`.
   */
  predicate HasOperands(args: seq<string>) {
    || WantsHelp(args)
    || (&& (args[1] == "step1" ==> 3 <= |args|)
        && (args[1] in Modes && args[1] != "step1" ==> 4 <= |args|))
  }

  /** The step name that selects `c`. */
  function ModeName(c: Command): string
    requires !c.ShowHelp?
  {
    match c
    case Dump(_) => "step1"
    case Plain(_, _) => "step2"
    case Recursive(_, _) => "step3"
    case Invert(_, _) => "step4"
    case Regex(_, _) => "step5"
    case Anchored(_, _) => "step6"
    case Final(_, _, _) => "final"
  }

  /** The positional operands `c` carries, in argument order. */
  function Operands(c: Command): seq<string>
    requires !c.ShowHelp?
  {
    match c
    case Dump(f) => [f]
    case Plain(p, f) => [p, f]
    case Recursive(p, d) => [p, d]
    case Invert(p, f) => [p, f]
    case Regex(p, f) => [p, f]
    case Anchored(p, f) => [p, f]
    case Final(p, f, _) => [p, f]
  }

  /**
    The dispatch of `main`: help when asked for or when the step name is
    unknown; otherwise the step `args[1]` names, with its operands taken
    from `args[2]` on, and case-insensitivity for `final` exactly when `-i`
    is among the arguments.
   */
  function Dispatch(args: seq<string>): (c: Command)
    requires HasOperands(args)
    ensures c.ShowHelp? <==> WantsHelp(args) || args[1] !in Modes
    ensures !c.ShowHelp? ==>
      && ModeName(c) == args[1]
      && 2 + |Operands(c)| <= |args|
      && Operands(c) == args[2..2 + |Operands(c)|]
    ensures c.Final? ==> (c.caseInsensitive <==> "-i" in args)
  {
    if WantsHelp(args) then ShowHelp
    else
      match args[1]
      case "step1" => Dump(args[2])
      case "step2" => Plain(args[2], args[3])
      case "step3" => Recursive(args[2], args[3])
      case "step4" => Invert(args[2], args[3])
      case "step5" => Regex(args[2], args[3])
      case "step6" => Anchored(args[2], args[3])
      case "final" => Final(args[2], args[3], "-i" in args)
      case _ => ShowHelp
  }

  /** What running `main` gives: the help text, or the outcome of the selected step. */
  datatype Response = HelpShown | Finished(outcome: Outcome)

  /** step1: print the whole text of the file; a read failure is fatal. */
  function DumpFile(file: ReadOutcome): Outcome {
    match file
    case Read(content) => Printed([content])
    case ReadFailed => Aborted(Unreadable)
  }

  /**
    `main` with the file system and the expression compiler as parameters:
    `read` gives the outcome of reading a named file, `walk` the entries of
    the walk from a named directory, `compile` the outcome of `Regex::new`.
   */
  function Run(args: seq<string>, read: string -> ReadOutcome, walk: string -> seq<Entry>,
               compile: string -> Compiled): (r: Response)
    requires HasOperands(args)
    ensures r.HelpShown? <==> WantsHelp(args) || args[1] !in Modes
    ensures !WantsHelp(args) && args[1] == "step1" ==> r == Finished(DumpFile(read(args[2])))
    ensures !WantsHelp(args) && args[1] == "step2" ==> r == Finished(LiteralSearch(args[2], read(args[3])))
    ensures !WantsHelp(args) && args[1] == "step4" ==> r == Finished(InvertedSearch(args[2], read(args[3])))
    ensures !WantsHelp(args) && args[1] in {"step5", "step6"} ==> r == Finished(RegexSearch(args[2], compile, read(args[3])))
    ensures !WantsHelp(args) && args[1] == "step3" ==>
      r == Finished(Printed(TreeSearch(walk(args[3]), args[2])))
    ensures (!WantsHelp(args) && args[1] in {"step2", "step4", "step5", "step6", "final"} && read(args[3]).ReadFailed?)
      ==> r.Finished? && r.outcome.Aborted?
    ensures !WantsHelp(args) && args[1] in {"step5", "step6"} && compile(args[2]).SyntaxError? ==>
      r == Finished(Aborted(InvalidRegex))
    ensures !WantsHelp(args) && args[1] == "final" ==>
      r == Finished(FinalSearch(args[2], "-i" in args, compile, read(args[3])))
  {
    match Dispatch(args)
    case ShowHelp => HelpShown
    case Dump(f) => Finished(DumpFile(read(f)))
    case Plain(p, f) => Finished(LiteralSearch(p, read(f)))
    case Recursive(p, d) => Finished(Printed(TreeSearch(walk(d), p)))
    case Invert(p, f) => Finished(InvertedSearch(p, read(f)))
    case Regex(p, f) => Finished(RegexSearch(p, compile, read(f)))
    case Anchored(p, f) => Finished(RegexSearch(p, compile, read(f)))
    case Final(p, f, ci) => Finished(FinalSearch(p, ci, compile, read(f)))
  }
}
