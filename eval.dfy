/**
 * What eval does with a command line once parseline has split it: run a builtin (quit,
 * jobs, bg, fg) through builtin_cmd, or fork a child for anything else.  eval hands argv
 * to builtin_cmd without checking that parseline found a word; on a blank line argv[0] is
 * then a null pointer and builtin_cmd's first strcmp has undefined behaviour.  EvalAsWritten
 * keeps that; EvalLine is the same dispatch with the blank-line check in front of it.
 */
module Eval {
  import opened CStrings
  import opened Parse

  /** What eval goes on to do. */
  datatype Action =
    | Ignore                                // nothing: the line has no words
    | Quit                                  // quit: the shell exits
    | ListAll                               // jobs: listjobs
    | Continue(argv: seq<seq<char>>)        // bg or fg: do_bgfg
    | Run(argv: seq<seq<char>>, bg: bool)   // anything else: fork, exec argv[0], addjob
    | Undefined                             // strcmp on a null pointer

  /** builtin_cmd's tests in order, and eval's fork when none of them matches. */
  function Command(argv: seq<seq<char>>, bg: bool): (a: Action)
    requires argv != []
    ensures a != Ignore && a != Undefined
    ensures a == Quit <==> argv[0] == "quit"
    ensures a.Continue? <==> argv[0] == "bg" || argv[0] == "fg"
    ensures a.Continue? ==> a.argv == argv
    ensures a.Run? <==> argv[0] !in ["quit", "jobs", "bg", "fg"]
    ensures a.Run? ==> a.argv == argv && a.bg == bg
  {
    if argv[0] == "quit" then Quit
    else if argv[0] == "jobs" then ListAll
    else if argv[0] == "bg" || argv[0] == "fg" then Continue(argv)
    else Run(argv, bg)
  }

  /** eval as written: builtin_cmd is called on whatever parseline produced. */
  function EvalAsWritten(line: seq<char>): (a: Action)
    requires StrLen(line) >= 1
    ensures a == Undefined <==> ParseLineSpec(line).0 == []
    ensures a != Ignore
  {
    var (argv, bg) := ParseLineSpec(line);
    if argv == [] then Undefined else Command(argv, bg)
  }

  /** eval with the blank-line check: a line without words is ignored. */
  function EvalLine(line: seq<char>): (a: Action)
    requires StrLen(line) >= 1
    ensures a != Undefined
    ensures a == Ignore <==> ParseLineSpec(line).0 == []
    ensures a.Run? ==> a.argv == ParseLineSpec(line).0 && a.bg == ParseLineSpec(line).1
  {
    var (argv, bg) := ParseLineSpec(line);
    if argv == [] then Ignore else Command(argv, bg)
  }

  /** A line of spaces (an empty line included) sends a null argv[0] to builtin_cmd. */
  lemma BlankLineIsUndefined(line: seq<char>)
    requires StrLen(line) >= 1
    requires forall i :: 0 <= i < StrLen(line) - 1 ==> line[i] == ' '
    ensures EvalAsWritten(line) == Undefined
  {
    BlankLine(line);
  }

  /** The shortest such line: the user just presses return. */
  lemma EmptyLineIsUndefined()
    ensures StrLen("\n") == 1
    ensures EvalAsWritten("\n") == Undefined
  {
    BlankLineIsUndefined("\n");
  }

  /** With the check, a line of spaces does nothing. */
  lemma BlankLineIsIgnored(line: seq<char>)
    requires StrLen(line) >= 1
    requires forall i :: 0 <= i < StrLen(line) - 1 ==> line[i] == ' '
    ensures EvalLine(line) == Ignore
  {
    BlankLine(line);
  }

  /** The check changes nothing for a line with at least one word. */
  lemma CheckOnlyAffectsBlankLines(line: seq<char>)
    requires StrLen(line) >= 1
    ensures EvalAsWritten(line) == Undefined <==> ParseLineSpec(line).0 == []
    ensures ParseLineSpec(line).0 != [] ==> EvalLine(line) == EvalAsWritten(line)
  {
  }

  /** A line parsed into words that do not start with a builtin's name runs those words. */
  lemma ParsedCommandRuns(line: seq<char>, ws: seq<seq<char>>, bg: bool)
    requires StrLen(line) >= 1 && ParseLineSpec(line) == (ws, bg)
    requires ws != [] && ws[0] !in ["quit", "jobs", "bg", "fg"]
    ensures EvalLine(line) == Run(ws, bg)
  {
    assert ws[0] != "quit" && ws[0] != "jobs" && ws[0] != "bg" && ws[0] != "fg";
  }

  /** A typed command whose name is not a builtin runs argv in the foreground, or in the
      background when `&` follows it. */
  lemma TypedCommandRuns(ws: seq<seq<char>>, nl: char)
    requires ws != [] && ws[0] !in ["quit", "jobs", "bg", "fg"]
    requires forall i :: 0 <= i < |ws| ==> Plain(ws[i]) && '\0' !in ws[i]
    requires Plain(ws[|ws| - 1]) && ws[|ws| - 1][0] != '&'
    requires nl != '\0'
    ensures StrLen(Unparse(ws) + [nl]) >= 1 && EvalLine(Unparse(ws) + [nl]) == Run(ws, false)
    ensures StrLen(Unparse(ws) + ['&', nl]) >= 1 &&
      EvalLine(Unparse(ws) + ['&', nl]) == Run(ws, true)
  {
    ParseForeground(ws, nl);
    ParsedCommandRuns(Unparse(ws) + [nl], ws, false);
    ParseBackground(ws, nl);
    ParsedCommandRuns(Unparse(ws) + ['&', nl], ws, true);
  }

  /** `bg <word>` and `fg <word>` reach do_bgfg with both words. */
  lemma TypedBgFgContinues(cmd: seq<char>, arg: seq<char>, nl: char)
    requires cmd == "bg" || cmd == "fg"
    requires Plain(arg) && '\0' !in arg && arg[0] != '&'
    requires nl != '\0'
    ensures StrLen(Unparse([cmd, arg]) + [nl]) >= 1
    ensures EvalLine(Unparse([cmd, arg]) + [nl]) == Continue([cmd, arg])
  {
    assert '\0' !in cmd && Plain(cmd);
    ParseForeground([cmd, arg], nl);
  }
}
