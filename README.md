# tsh: a tiny job-control shell, modelled in Dafny

tsh reads a command line and splits it into words with `parseline`. It runs the
builtins (`quit`, `jobs`, `bg`, `fg`) itself; for anything else it forks a child in a
process group of its own and records the child in a fixed table of `MAXJOBS` (16) job
slots. Each slot holds a pid, a job id, a state (foreground, background, stopped) and the
command line. Job ids come from `nextjid`, which wraps to 1 once it passes 16 and is reset
to one above the largest job id in use whenever a job is deleted. ctrl-c and ctrl-z are
forwarded to the foreground job's process group. `sigchld_handler` reaps children and
brings the table up to date: an exited child is deleted; a child killed by a signal is
reported and deleted; a stopped child is marked stopped and reported. `bg` and `fg`
continue a job named by pid or by `%jobid`.

The model has these modules:

- `JobList` (job_list.dfy) is the job table as values. It has the slots, the
  allocator, each job-list routine as a function, and the lemmas about them.
- `Jobs` (job_table.dfy) is the same table as a class: an `array<Job>` plus `nextjid`.
  Each routine is a method that loops over the slots in place, and each is proved equal
  to its function in `JobList`.
- `Parse` (parse.dfy) holds `parseline`. It is a method over one buffer that moves an
  index the way the C code moves its pointer, proved equal to a recursive specification.
  The lemmas give the blank-line result, the background flag and the round trip of
  typed words.
- `JobControl` (job_control.dfy) holds `do_bgfg` and the parent side of `eval` (recording
  the new child, then waiting or printing).
- `Signals` (signal_relay.dfy) holds the body of `sigchld_handler`, both as one event
  and as the whole draining loop, and the forwarding done by `sigint_handler` and
  `sigtstp_handler`.
- `Eval` (eval.dfy) holds the dispatch in `eval`/`builtin_cmd` after parsing, with the
  finding below.
- `Session` (session.dfy) composes these into ctrl-z and ctrl-c scenarios.
- `CStrings` (cstrings.dfy) and `Wrappers` (wrappers.dfy) hold `strlen`, `isdigit`,
  `atoi`, decimal printing and `Option`.

What the outside world does is represented by values:

- Output, signals sent and waiting are an `Effect` list: `Say(msg)`, `Kill(target, sig)`
  and `WaitFg(pid)`. A `Say` carries a `Msg`, a tagged value that stands for each line
  the shell prints.
- What `waitpid` reports is a sequence of `Event`s.
- The pid `fork` returns is a parameter.

Undefined behaviour in the C code becomes a precondition. One case is the NULL job
pointer that `sigchld_handler` dereferences when it looks up a killed or stopped child
that is not in the table. Another is the write to `buf[strlen(buf)-1]` in `parseline`,
which is out of bounds (`buf[-1]`) when the line is the empty string.

Some behaviour of the code is kept as written, on purpose:

- **Job ids are not unique.** Because the allocator wraps, two jobs can share an id.
  `getjobjid` then only reaches the one in the lower slot. That can be the older job
  (`JobList.JidsCanCollide`) or the newer one (`JobList.NewerJidShadowsOlder`).
- **`fg %N` reads only one character.** `bg %N` reads the job id with `atoi`, but
  `fg %N` takes the single character after `%` as a digit. So `fg %12` asks for job 1,
  and `fg %` asks for job -48 (`JobControl.FgReadsOneDigit`).
- **`parseline` splits on spaces only.** Tabs are not separators. The last character
  of the line is overwritten whatever it is. A quoted word runs to the next single
  quote. Text left without its closing delimiter is dropped.

## Model

| member | source | states |
|---|---|---|
| `CStrings.StrLen` | shlab-handout/tsh.c:286 | strlen: no NUL before the result, and a NUL (or the end of the buffer) at it |
| `CStrings.Atoi` | shlab-handout/tsh.c:378 | atoi: 0 when no sign or digit follows the white space; negative only after a `-`; the decimal value of a string of digits |
| `CStrings.AtoiDecimal` | shlab-handout/tsh.c:378 | atoi reads back any pid or job id written in decimal, whatever non-digit text follows |
| `JobList.FindPid` | shlab-handout/tsh.c:673-685 | getjobpid: a pid below 1 is never found; otherwise the result is the first slot holding the pid, and None means no slot holds it |
| `JobList.FindJid` | shlab-handout/tsh.c:688-701 | getjobjid: the same, for job ids |
| `JobList.FirstFree` | shlab-handout/tsh.c:622-623 | the slot addjob fills is the lowest one with pid 0; None means every slot is taken |
| `JobList.FgPid` | shlab-handout/tsh.c:661-670 | fgpid: 0 when no slot is FG, otherwise the pid of the first FG slot |
| `JobList.PidToJid` | shlab-handout/tsh.c:704-717 | pid2jid: 0 for a pid below 1 or held by no slot; otherwise the job id of the first slot holding the pid |
| `JobList.MaxJid` | shlab-handout/tsh.c:601-611 | maxjid: at least 0, no slot's job id above it, and equal to some slot's job id unless 0 |
| `JobList.Add` | shlab-handout/tsh.c:614-639 | addjob succeeds exactly when the pid is at least 1 and a slot is free; on failure the table is unchanged and only a full table prints; on success a free slot takes the pid, state, command line and old nextjid and nothing else in the slots changes |
| `JobList.Delete` | shlab-handout/tsh.c:642-658 | deletejob succeeds exactly when the pid is at least 1 and held by some slot; on failure nothing changes; on success one slot holding the pid is cleared, nothing else in the slots changes, and nextjid is maxjid + 1 |
| `JobList.Listing` | shlab-handout/tsh.c:720-744 | listjobs prints one job line per occupied slot: as many lines as occupied slots |
| `JobList.ListingFromSlots` | shlab-handout/tsh.c:724-742 | every printed line is the job id, pid, state label and command line of an occupied slot |
| `JobList.ListingAt` | shlab-handout/tsh.c:724-742 | the line of occupied slot k is printed at position "number of occupied slots before k", with its job id, pid, state label and command line |
| `JobList.ListingInSlotOrder` | shlab-handout/tsh.c:724-742 | for occupied slots i < j, the line of i is printed before the line of j |
| `JobList.ListingHasSlot` | shlab-handout/tsh.c:724-742 | the line of every occupied slot is in the listing |
| `JobList.InitialTable` | shlab-handout/tsh.c:52-61 | the static job list is well formed and every slot is cleared |
| `JobList.ListingMentions` | shlab-handout/tsh.c:724-742 | a pid appears in the listing exactly when some slot holds it (both directions) |
| `JobList.ListingOfSingle` | shlab-handout/tsh.c:724-742 | a table holding one job lists exactly that job's line, with the label of its state |
| `JobList.InitialTableFacts` | shlab-handout/tsh.c:593-598 | after initjobs no pid is found, fgpid is 0, maxjid is 0, slot 0 is free and the listing is empty |
| `JobList.FgPidZeroIff` | shlab-handout/tsh.c:661-670 | in a well-formed table fgpid returns 0 exactly when no slot is FG |
| `JobList.AddRejects` | shlab-handout/tsh.c:618-638 | addjob with a pid below 1, or with a full table, returns 0 and changes nothing; only a full table prints "too many jobs" |
| `JobList.AddFillsFirstFree` | shlab-handout/tsh.c:622-634 | on success addjob fills the lowest free slot with the pid, state, command line and old nextjid; it bumps nextjid (wrapping to 1 past MAXJOBS) and touches no other slot |
| `JobList.AddPreservesWellFormed` | shlab-handout/tsh.c:614-639 | addjob keeps every slot well formed and nextjid positive |
| `JobList.AddThenFind` | shlab-handout/tsh.c:614-685 | a newly added pid is found by getjobpid in the slot it was put in, with the values passed; distinct pids stay distinct |
| `JobList.DeleteAbsent` | shlab-handout/tsh.c:646-657 | deletejob of a pid below 1 or not in the table returns 0 and changes nothing |
| `JobList.DeletePresent` | shlab-handout/tsh.c:650-655 | deletejob clears exactly the first slot holding the pid, returns 1 and sets nextjid to maxjid + 1 |
| `JobList.DeletePreservesWellFormed` | shlab-handout/tsh.c:642-658 | deletejob keeps the table well formed |
| `JobList.DeleteTwice` | shlab-handout/tsh.c:642-658 | with distinct pids, a second deletejob of the same pid returns 0 and changes nothing |
| `JobList.AddThenDelete` | shlab-handout/tsh.c:614-658 | adding a new pid and deleting it restores every slot; nextjid becomes one above the largest job id already in use |
| `JobList.JidsCanCollide` | shlab-handout/tsh.c:626-629 | after the wrap, addjob hands out job id 1 while job 1 is alive, and getjobjid(1) finds the older job, in the lower slot |
| `JobList.NewerJidShadowsOlder` | shlab-handout/tsh.c:622-629 | after the wrap, the second job 1 can land in a lower slot than the first, and getjobjid(1) then finds the newer job |
| `Jobs.JobTable.constructor` | shlab-handout/tsh.c:52-61 | the global job list starts with every slot cleared and nextjid 1 |
| `Jobs.JobTable.ClearJob` | shlab-handout/tsh.c:585-590 | clearjob resets exactly one slot and keeps the table valid |
| `Jobs.JobTable.InitJobs` | shlab-handout/tsh.c:593-598 | initjobs clears every slot and leaves nextjid alone |
| `Jobs.JobTable.MaxJid` | shlab-handout/tsh.c:601-611 | the loop computes JobList.MaxJid of the slots |
| `Jobs.JobTable.AddJob` | shlab-handout/tsh.c:614-639 | the in-place addjob gives the table, return value and output of JobList.Add |
| `Jobs.JobTable.DeleteJob` | shlab-handout/tsh.c:642-658 | the in-place deletejob gives the table and return value of JobList.Delete |
| `Jobs.JobTable.FgPid` | shlab-handout/tsh.c:661-670 | the loop returns JobList.FgPid of the slots |
| `Jobs.JobTable.GetJobPid` | shlab-handout/tsh.c:673-685 | the loop returns the slot JobList.FindPid names |
| `Jobs.JobTable.GetJobJid` | shlab-handout/tsh.c:688-701 | the loop returns the slot JobList.FindJid names |
| `Jobs.JobTable.Pid2Jid` | shlab-handout/tsh.c:704-717 | the loop returns JobList.PidToJid of the slots |
| `Jobs.JobTable.ListJobs` | shlab-handout/tsh.c:720-744 | the loop prints JobList.Listing of the slots |
| `Parse.SkipFrom` | shlab-handout/tsh.c:287-289 | the index after the spaces: never before the start, and at a non-space or the end |
| `Parse.SkipFromSpaces` | shlab-handout/tsh.c:287-289 | everything the skip steps over is a space, so the index it stops at is the first non-space |
| `Parse.ScanFrom` | shlab-handout/tsh.c:292-317 | the words from an index on: at most one word per remaining character, since each word consumes its delimiter |
| `Parse.ParseLineSpec` | shlab-handout/tsh.c:317-327 | parseline's argv is the buffer's words, less the last one exactly when it starts with `&`; it returns 1 exactly for a line without words or with that `&` word removed |
| `Parse.Buffer` | shlab-handout/tsh.c:285-286 | the scanned buffer is the C string with its last character replaced by a space |
| `Parse.SkipBlanks` | shlab-handout/tsh.c:287-289 | the skip loop stops at the first non-space character at or after the index, or at the end |
| `Parse.StrChr` | shlab-handout/tsh.c:295 | strchr finds the first occurrence at or after the index, or none |
| `Parse.NextWord` | shlab-handout/tsh.c:305-315 | skipping spaces, an optional opening quote and finding the closer leave exactly the words ScanFrom gives from that index |
| `Parse.Words` | shlab-handout/tsh.c:292-317 | the word loop produces exactly the words of the buffer |
| `Parse.ParseLine` | shlab-handout/tsh.c:277-328 | parseline returns the words and the background flag of its specification |
| `Parse.FindFromFirst` | shlab-handout/tsh.c:298 | the delimiter found is the character sought, none comes before it, and None means none is there |
| `Parse.ScanFromSpace` | shlab-handout/tsh.c:305-307 | a space before the next word changes nothing: separating spaces are skipped |
| `Parse.ScanWordsEncodable` | shlab-handout/tsh.c:293-315 | every word produced is either unquoted (non-empty, no space, no leading quote) or free of single quotes |
| `Parse.ScanPlainAt` | shlab-handout/tsh.c:297-304 | an unquoted word followed by a space is produced as is, and scanning continues after the space |
| `Parse.ScanQuotedWord` | shlab-handout/tsh.c:293-312 | a word opened by a single quote runs, spaces included, to the next single quote, and scanning resumes right after that quote whatever follows it |
| `Parse.QuoteThenGluedWord` | shlab-handout/tsh.c:301-312 | text glued to a closing quote is the next word: `'a'b` scans to `a` and `b` |
| `Parse.ScanQuotedAt` | shlab-handout/tsh.c:293-295 | a quote-free text between single quotes and followed by a space is one word, spaces included, and the space is skipped |
| `Parse.ScanUnparse` | shlab-handout/tsh.c:301-316 | unquoted words typed with one space after each are read back exactly |
| `Parse.ScanAllSpaces` | shlab-handout/tsh.c:305-315 | a buffer of spaces holds no words |
| `Parse.BlankLine` | shlab-handout/tsh.c:319-321 | a line of spaces (ending in its newline) gives no words and returns 1 |
| `Parse.ParseForeground` | shlab-handout/tsh.c:323-327 | typed unquoted words whose last word does not start with `&` parse back to those words with 0 (1 when there are no words) |
| `Parse.ParseBackground` | shlab-handout/tsh.c:323-327 | the same words followed by `&` parse back to those words with 1: the `&` word is removed |
| `JobControl.Classify` | shlab-handout/tsh.c:354-476 | the argument is missing exactly without a second word, a pid exactly when it starts with a digit (then at least 0), a job id exactly when it starts with `%`; for fg the job id is the one character after `%` less '0' |
| `JobControl.BgFg` | shlab-handout/tsh.c:351-479 | bg and fg never add, remove or re-number a job: only states change, and one or two effects result |
| `JobControl.LaunchSpec` | shlab-handout/tsh.c:244-261 | eval ends with "Erorr!" exactly when addjob fails (pid below 1 or full table), and then the table is unchanged; a foreground job that was recorded is waited for |
| `JobControl.ResumeSlot` | shlab-handout/tsh.c:387-395 | continuing a slot sends SIGCONT to its group, sets it to BG or FG, then prints it (bg) or waits for its pid (fg) |
| `JobControl.DoBgFg` | shlab-handout/tsh.c:351-479 | do_bgfg on the job table gives the slots and effects of BgFg, with every error branch of the code |
| `JobControl.Launch` | shlab-handout/tsh.c:244-261 | eval after fork records the child; on failure it prints addjob's message then "Erorr!"; otherwise it waits for a foreground child or prints a background one |
| `JobControl.BgFgErrorOrResume` | shlab-handout/tsh.c:351-479 | bg/fg either prints one error line and changes nothing, or continues exactly the job its argument names: only that slot's state changes, SIGCONT goes to its group, and bg prints it while fg waits for it |
| `JobControl.BgFgFailureMessages` | shlab-handout/tsh.c:354-474 | each failure keeps the table and prints its own line: the usage line for a missing argument, "argument must be PID or %jobid" for any other shape, "No such process" for a pid no slot holds, "No such job" for a `%` job id no slot holds |
| `JobControl.BgFgPreservesWellFormed` | shlab-handout/tsh.c:351-479 | bg and fg keep the table well formed |
| `JobControl.BgKeepsAtMostOneFg` | shlab-handout/tsh.c:372-427 | bg never adds a foreground job |
| `JobControl.FgMakesOneForeground` | shlab-handout/tsh.c:429-470 | fg from the prompt leaves at most one FG job, and the pid it waits for is the one fgpid reports |
| `JobControl.BgFgByPid` | shlab-handout/tsh.c:375-395 | `bg <pid>` / `fg <pid>` continue the first slot holding that pid |
| `JobControl.BgByJid` | shlab-handout/tsh.c:399-419 | `bg %<jid>` continues the first slot holding that job id |
| `JobControl.FgByJid` | shlab-handout/tsh.c:450-469 | `fg %<d>` with one digit d continues the first slot holding job d |
| `JobControl.FgReadsOneDigit` | shlab-handout/tsh.c:452 | `fg %12` asks for job 1 while `bg %12` asks for job 12; `fg %` asks for job -48 |
| `JobControl.LaunchRejects` | shlab-handout/tsh.c:244-247 | a failed fork (pid below 1) and a full table leave the table alone and print "Erorr!" (after "too many jobs" for a full table) |
| `JobControl.LaunchBackground` | shlab-handout/tsh.c:256-260 | a background job goes into the lowest free slot with the next job id, and the printed line names exactly that job |
| `JobControl.LaunchForeground` | shlab-handout/tsh.c:252-255 | a foreground job started from the prompt is the one FG job, fgpid reports it, and eval waits for its pid |
| `Signals.ApplyEvent` | shlab-handout/tsh.c:516-533 | one status change only clears slots or marks them ST, and prints nothing for an exit and one line otherwise |
| `Signals.ApplyEvents` | shlab-handout/tsh.c:507-536 | the whole drain only clears slots or marks them ST, and prints at most one line per status change |
| `Signals.Forward` | shlab-handout/tsh.c:543-574 | nothing is sent when no job is FG; anything sent is one kill to the negated pid of an FG job |
| `Signals.HandleEvent` | shlab-handout/tsh.c:516-533 | one turn of the handler's loop on the table gives the table and output of ApplyEvent |
| `Signals.SigchldHandler` | shlab-handout/tsh.c:507-536 | the loop applies every reported status change in order and prints their lines in order |
| `Signals.ForwardToForeground` | shlab-handout/tsh.c:543-574 | sigint_handler/sigtstp_handler send Forward of the slots |
| `Signals.ForwardTargetsForeground` | shlab-handout/tsh.c:543-574 | forwarding sends nothing exactly when no job is FG; otherwise it sends the signal once, addressed to a process group (a target of -1 or below, never 0), and to the FG job when that job is unique |
| `Signals.EventChangesOneSlot` | shlab-handout/tsh.c:516-533 | an exit or a kill clears exactly the child's slot; a stop only marks it ST; killed and stopped children are reported with the job id they had |
| `Signals.ExitOfUnknownChild` | shlab-handout/tsh.c:516-518 | an exit of a child not in the table changes nothing |
| `Signals.EventEndsWait` | shlab-handout/tsh.c:484-494 | any status change of the child waitfg waits for takes its slot out of FG, and with distinct pids fgpid no longer reports it |
| `Signals.SettlesPreserves` | shlab-handout/tsh.c:516-533 | clearing slots and stopping occupied ones keeps slots well formed, pids distinct and at most one job FG |
| `Signals.EventPreserves` | shlab-handout/tsh.c:516-533 | one status change keeps the table well formed, the pids distinct and at most one job FG |
| `Signals.EventsPreserve` | shlab-handout/tsh.c:507-536 | the whole handler keeps the same three invariants |
| `Signals.StopThenKill` | shlab-handout/tsh.c:521-532 | a job stopped and then killed is reported twice, and its slot ends cleared with every other slot unchanged |
| `Eval.Command` | shlab-handout/tsh.c:334-346 | builtin_cmd: quit exactly for `quit`, do_bgfg with argv exactly for `bg`/`fg`, and fork of argv with the parsed flag exactly for a word that names no builtin |
| `Eval.EvalAsWritten` | shlab-handout/tsh.c:201-212 | as written, eval is undefined exactly on lines without words |
| `Eval.EvalLine` | shlab-handout/tsh.c:201-264 | corrected dispatch: never undefined; ignores a line exactly when it has no words; runs the parsed words with the parsed flag |
| `Eval.EmptyLineIsUndefined` | shlab-handout/tsh.c:201-212 | as written, an empty line reaches strcmp with a null argv[0] |
| `Eval.BlankLineIsUndefined` | shlab-handout/tsh.c:334-335 | as written, any line of spaces reaches strcmp with a null argv[0] |
| `Eval.BlankLineIsIgnored` | shlab-handout/tsh.c:319-321 | with the check, a line of spaces does nothing |
| `Eval.CheckOnlyAffectsBlankLines` | shlab-handout/tsh.c:212 | the written dispatch is undefined exactly on lines without words, and the check changes nothing else |
| `Eval.ParsedCommandRuns` | shlab-handout/tsh.c:334-346 | a first word that names no builtin falls through to fork |
| `Eval.TypedCommandRuns` | shlab-handout/tsh.c:201-261 | a typed non-builtin command runs its words in the foreground, or in the background with a trailing `&` |
| `Eval.TypedBgFgContinues` | shlab-handout/tsh.c:341-343 | `bg <word>` and `fg <word>` reach do_bgfg with both words |
| `Session.LaunchedInForeground` | shlab-handout/tsh.c:244-255 | a new foreground job occupies the lowest free slot, is found by its pid, is reported by fgpid and is waited for |
| `Session.StopStep` | shlab-handout/tsh.c:527-532 | the stop of the one FG job marks it ST, reports it and leaves nothing in the foreground |
| `Session.BgStep` | shlab-handout/tsh.c:375-395 | `bg <pid>` on a stopped job sends SIGCONT, sets it to BG and prints it; ctrl-c then sends nothing |
| `Session.CtrlZStopsJob` | shlab-handout/tsh.c:562-574 | ctrl-z on a new foreground job sends SIGTSTP to its group; the stop then marks just that job stopped, reports it and ends the wait |
| `Session.CtrlCEndsJob` | shlab-handout/tsh.c:543-555 | ctrl-c on a new foreground job sends SIGINT to its group; its death is reported, the wait ends and every slot is as before the job started |

## Left out

- Starting the shell is not modelled: `main`, option parsing, the prompt loop, `usage`,
  `unix_error`, `app_error`, `Signal` and `sigquit_handler`. `main` reaches the job list only
  through `initjobs` and `eval`, which are modelled (`Jobs.JobTable.InitJobs`, `Eval`,
  `JobControl.Launch`); the others do not touch it.
- The child side of `eval` is left out: `fork`, `setpgid` and `execvp`. The pid `fork`
  returns is a parameter of `JobControl.Launch`.
- The signal mask is not modelled (`sigfillset`, `sigaddset`, `sigprocmask`). Handlers
  run as whole steps, and there is no concurrency between them and the shell. So the
  model does not show that an `addjob` failure returns with SIGCHLD still blocked.
- `waitpid` is left out. The status changes it reports are the `Event` sequence given
  to `Signals.SigchldHandler`.
- `kill` and `waitfg` are effects. The polling loop of `waitfg` is not executed:
  `Signals.EventEndsWait` states the condition under which it exits.
- `printf` formatting is not modelled. Each printed line is a `Msg` value, and the
  verbose-mode trace of `addjob` is not modelled.
- Integer overflow is not modelled. This covers `atoi` overflow and the fixed `MAXLINE`
  and `MAXARGS` buffers, whose overflows are undefined in C. Integers and sequences are
  unbounded here.
- Job states are the `State` datatype rather than an `int`. The `default` branch of
  `listjobs` can therefore only see UNDEF.
- Builtins are reached only through `Eval.EvalLine`. `quit` and `jobs` are not run
  beyond that dispatch; `jobs` is `Jobs.JobTable.ListJobs`.
- Parse.ScanUnparse: the round trip is proved for unquoted words only. Quoted words are
  covered one at a time by `Parse.ScanQuotedWord` and `Parse.ScanQuotedAt`.
- Parse.ParseForeground: stated for unquoted words only, for the same reason.
- Parse.ParseBackground: stated for unquoted words only, for the same reason.
- A Dafny `char` stands for one C `char` of the line. For non-ASCII input the C code sees
  the UTF-8 bytes: `fg %<c>` computes `args[1]-'0'` from the first byte, which may be
  negative as a signed char, and "No such job" prints that byte. The model reads the whole
  code point in both places.

## Findings

| source | as written | input that shows it | evidently intended | confidence | as-written member | corrected member |
|---|---|---|---|---|---|---|
| shlab-handout/tsh.c:212 | eval passes argv to builtin_cmd even when parseline found no words. builtin_cmd's first `strcmp(argv[0], "quit")` then reads a null pointer, which is undefined behaviour and in practice crashes the shell | the line `"\n"` (the user presses return), or any line of spaces | a line without words is ignored; parseline already singles it out and returns 1 for it | high, not executed | `Eval.EmptyLineIsUndefined` | `Eval.EvalLine` |
