/**
 * The two places where the shell itself changes a job's state from the command line: the
 * bg and fg builtins (do_bgfg) and the parent side of eval, which records a freshly forked
 * child in the job list.  Both are methods on the job table, each proved against a function
 * on the slots, and the lemmas state what those functions promise.
 */
module JobControl {
  import opened Wrappers
  import opened CStrings
  import opened JobList
  import opened Jobs

  /** The state and output a step leaves behind. */
  datatype Outcome = Outcome(slots: seq<Job>, effects: seq<Effect>)

  /** How do_bgfg reads its argument. */
  datatype ArgKind = NoArg | PidArg(pid: int) | JidArg(jid: int) | OtherArg

  /** The argument of bg/fg: missing, a pid (leading digit, read with atoi), a job id after a
      `%`, or anything else.  bg reads the job id with atoi; fg reads only the one character
      after the `%` as a digit (so `fg %12` asks for job 1, and `fg %` for job -48). */
  function Classify(argv: seq<seq<char>>): (r: ArgKind)
    requires |argv| >= 1
    ensures r.NoArg? <==> |argv| == 1
    ensures r.PidArg? <==> |argv| >= 2 && IsDigit(CharAt(argv[1], 0))
    ensures r.JidArg? <==> |argv| >= 2 && CharAt(argv[1], 0) == '%'
    ensures r.PidArg? ==> r.pid >= 0
    ensures r.JidArg? && argv[0] != "bg" ==> r.jid == CharAt(argv[1], 1) as int - '0' as int
  {
    if |argv| == 1 then NoArg
    else
      var a := argv[1];
      if IsDigit(CharAt(a, 0)) then PidArg(Atoi(a))
      else if CharAt(a, 0) == '%' then
        JidArg(if argv[0] == "bg" then Atoi(a[1..]) else CharAt(a, 1) as int - '0' as int)
      else OtherArg
  }

  /** Continue slot k: signal its process group with SIGCONT, set it to BG or FG, then print
      it (bg) or wait for it (fg). */
  function Resume(s: seq<Job>, k: nat, bg: bool): Outcome
    requires k < |s|
  {
    var j := s[k];
    Outcome(s[k := j.(state := if bg then BG else FG)],
            [Kill(-j.pid, SIGCONT)] +
            if bg then [Say(JobLine(j.jid, j.pid, j.cmdline))] else [WaitFg(j.pid)])
  }

  /** do_bgfg; argv[0] is "bg" or (anything else) fg. */
  function BgFg(s: seq<Job>, argv: seq<seq<char>>): (o: Outcome)
    requires |argv| >= 1
    ensures |o.slots| == |s|
    ensures forall i :: 0 <= i < |s| ==>
      o.slots[i].pid == s[i].pid && o.slots[i].jid == s[i].jid && o.slots[i].cmdline == s[i].cmdline
    ensures 1 <= |o.effects| <= 2
  {
    var bg := argv[0] == "bg";
    match Classify(argv)
    case NoArg => Outcome(s, [Say(NeedsArgument(if bg then "bg" else "fg"))])
    case OtherArg => Outcome(s, [Say(ArgumentMustBe)])
    case PidArg(pid) =>
      (match FindPid(s, pid)
       case None => Outcome(s, [Say(NoSuchProcess(argv[1]))])
       case Some(k) => Resume(s, k, bg))
    case JidArg(jid) =>
      (match FindJid(s, jid)
       case None => Outcome(s, [Say(NoSuchJob(CharAt(argv[1], 1)))])
       case Some(k) => Resume(s, k, bg))
  }

  /** Continue the job in slot k of the table, as both branches of do_bgfg do. */
  method ResumeSlot(t: JobTable, k: nat, bg: bool) returns (effects: seq<Effect>)
    requires t.Valid() && k < t.jobs.Length && t.jobs[k].pid != 0
    modifies t.jobs
    ensures t.Valid()
    ensures Outcome(t.jobs[..], effects) == Resume(old(t.jobs[..]), k, bg)
  {
    var pid := t.jobs[k].pid;
    effects := [Kill(-pid, SIGCONT)];
    if bg {
      t.jobs[k] := t.jobs[k].(state := BG);
      effects := effects + [Say(JobLine(t.jobs[k].jid, t.jobs[k].pid, t.jobs[k].cmdline))];
    } else {
      t.jobs[k] := t.jobs[k].(state := FG);
      effects := effects + [WaitFg(pid)];
    }
    assert forall i :: 0 <= i < MAXJOBS && i != k ==> t.jobs[i] == old(t.jobs[i]);
  }

  /** do_bgfg on the shell's job table. */
  method DoBgFg(t: JobTable, argv: seq<seq<char>>) returns (effects: seq<Effect>)
    requires t.Valid() && |argv| >= 1
    modifies t.jobs
    ensures t.Valid()
    ensures Outcome(t.jobs[..], effects) == BgFg(old(t.jobs[..]), argv)
  {
    if |argv| == 1 {
      if argv[0] == "bg" {
        return [Say(NeedsArgument("bg"))];
      } else {
        return [Say(NeedsArgument("fg"))];
      }
    }
    var args := argv[1];
    var bg := argv[0] == "bg";
    var job: Option<nat>;
    if IsDigit(CharAt(args, 0)) {
      job := t.GetJobPid(Atoi(argv[1]));
      if job == None {
        return [Say(NoSuchProcess(argv[1]))];
      }
    } else if CharAt(args, 0) == '%' {
      if bg {
        job := t.GetJobJid(Atoi(args[1..]));
      } else {
        job := t.GetJobJid(CharAt(args, 1) as int - '0' as int);
      }
      if job == None {
        return [Say(NoSuchJob(CharAt(args, 1)))];
      }
    } else {
      return [Say(ArgumentMustBe)];
    }
    effects := ResumeSlot(t, job.value, bg);
  }

  // ---------------------------------------------------------------------------------------
  // The parent side of eval.

  /** The printed lines as effects. */
  function Says(out: seq<Msg>): (r: seq<Effect>)
    ensures |r| == |out| && forall i :: 0 <= i < |r| ==> r[i] == Say(out[i])
  {
    if out == [] then [] else [Say(out[0])] + Says(out[1..])
  }

  /** After fork returned pid to the parent: addjob; on failure its messages and "Erorr!";
      otherwise waitfg for a foreground job, or print a background job as getjobpid finds it. */
  function LaunchSpec(t: Table, pid: int, bg: bool, cmdline: seq<char>): (r: (Table, seq<Effect>))
    ensures (r.1 != [] && r.1[|r.1| - 1] == Say(EvalError)) <==> pid < 1 || FirstFree(t.slots).None?
    ensures pid < 1 || FirstFree(t.slots).None? ==> r.0 == t
    ensures !bg && r.0 != t ==> r.1 == [WaitFg(pid)]
  {
    var r := Add(t, pid, if bg then BG else FG, cmdline);
    if !r.ok then (r.table, Says(r.out) + [Say(EvalError)])
    else if !bg then (r.table, [WaitFg(pid)])
    else
      match FindPid(r.table.slots, pid)
      case None => (r.table, [])
      case Some(k) => (r.table, [Say(JobLine(r.table.slots[k].jid, r.table.slots[k].pid, cmdline))])
  }

  /** eval after fork, in the parent. */
  method Launch(t: JobTable, pid: int, bg: bool, cmdline: seq<char>) returns (effects: seq<Effect>)
    requires t.Valid()
    modifies t, t.jobs
    ensures t.Valid()
    ensures (t.Model(), effects) == LaunchSpec(old(t.Model()), pid, bg, cmdline)
  {
    var ok, out := t.AddJob(pid, if bg then BG else FG, cmdline);
    if !ok {
      return Says(out) + [Say(EvalError)];
    }
    if !bg {
      return [WaitFg(pid)];
    }
    var job := t.GetJobPid(pid);
    match job
    case None =>
      effects := [];
    case Some(k) =>
      effects := [Say(JobLine(t.jobs[k].jid, t.jobs[k].pid, cmdline))];
  }

  // ---------------------------------------------------------------------------------------
  // Properties of bg and fg.

  /** The slot bg/fg continues, if its argument names a job in the table. */
  function Target(s: seq<Job>, argv: seq<seq<char>>): (r: Option<nat>)
    requires |argv| >= 1
    ensures r.Some? ==> r.value < |s|
  {
    match Classify(argv)
    case PidArg(pid) => FindPid(s, pid)
    case JidArg(jid) => FindJid(s, jid)
    case _ => None
  }

  /** bg/fg either prints one error and changes nothing, or continues one occupied slot: only
      its state changes (to BG for bg, FG for fg), its process group gets SIGCONT, and then
      bg prints the job while fg waits for it (BgFgFailureMessages names each error). */
  lemma BgFgErrorOrResume(s: seq<Job>, argv: seq<seq<char>>)
    requires |argv| >= 1 && SlotsOk(s)
    ensures var o := BgFg(s, argv); var bg := argv[0] == "bg";
      match Target(s, argv)
      case None =>
        o.slots == s && |o.effects| == 1 && o.effects[0].Say? && !o.effects[0].msg.JobLine?
      case Some(k) =>
        && s[k].pid >= 1
        && o.slots == s[k := s[k].(state := if bg then BG else FG)]
        && o.effects == [Kill(-s[k].pid, SIGCONT),
                         if bg then Say(JobLine(s[k].jid, s[k].pid, s[k].cmdline))
                         else WaitFg(s[k].pid)]
  {
    var k := Target(s, argv);
    if k.Some? {
      assert SlotOk(s[k.value]);
    }
  }

  /** The error bg/fg prints for each way it can fail: the usage line without an argument,
      the PID or %jobid complaint for an argument that is neither, "No such process" for a
      pid no slot holds and "No such job" for a job id no slot holds.  The table is kept. */
  lemma BgFgFailureMessages(s: seq<Job>, argv: seq<seq<char>>)
    requires |argv| >= 1
    ensures |argv| == 1 ==>
      BgFg(s, argv) == Outcome(s, [Say(NeedsArgument(if argv[0] == "bg" then "bg" else "fg"))])
    ensures |argv| >= 2 && !IsDigit(CharAt(argv[1], 0)) && CharAt(argv[1], 0) != '%' ==>
      BgFg(s, argv) == Outcome(s, [Say(ArgumentMustBe)])
    ensures |argv| >= 2 && IsDigit(CharAt(argv[1], 0)) && FindPid(s, Atoi(argv[1])).None? ==>
      BgFg(s, argv) == Outcome(s, [Say(NoSuchProcess(argv[1]))])
    ensures
      && |argv| >= 2
      && CharAt(argv[1], 0) == '%'
      && FindJid(s, if argv[0] == "bg" then Atoi(argv[1][1..])
                    else CharAt(argv[1], 1) as int - '0' as int).None?
      ==> BgFg(s, argv) == Outcome(s, [Say(NoSuchJob(CharAt(argv[1], 1)))])
  {
  }

  /** bg and fg keep the table well formed. */
  lemma BgFgPreservesWellFormed(t: Table, argv: seq<seq<char>>)
    requires |argv| >= 1 && WellFormed(t)
    ensures WellFormed(Table(BgFg(t.slots, argv).slots, t.next))
  {
    var s := t.slots;
    var s' := BgFg(s, argv).slots;
    BgFgErrorOrResume(s, argv);
    if Target(s, argv).Some? {
      var k := Target(s, argv).value;
      assert forall i :: 0 <= i < |s'| && i != k ==> s'[i] == s[i];
      assert SlotOk(s'[k]);
    }
  }

  /** bg never adds a foreground job, so at most one stays in the foreground. */
  lemma BgKeepsAtMostOneFg(s: seq<Job>, argv: seq<seq<char>>)
    requires |argv| >= 1 && argv[0] == "bg" && SlotsOk(s) && AtMostOneFg(s)
    ensures AtMostOneFg(BgFg(s, argv).slots)
  {
    var s' := BgFg(s, argv).slots;
    BgFgErrorOrResume(s, argv);
    if Target(s, argv).Some? {
      var k := Target(s, argv).value;
      assert forall i :: 0 <= i < |s'| && i != k ==> s'[i] == s[i];
    }
  }

  /** fg, issued while no job is in the foreground (as at the prompt), leaves at most one job
      in the foreground, and the job it waits for is the one fgpid reports. */
  lemma FgMakesOneForeground(s: seq<Job>, argv: seq<seq<char>>)
    requires |argv| >= 1 && argv[0] != "bg" && SlotsOk(s)
    requires forall i :: 0 <= i < |s| ==> s[i].state != FG
    ensures AtMostOneFg(BgFg(s, argv).slots)
    ensures forall p :: WaitFg(p) in BgFg(s, argv).effects ==> FgPid(BgFg(s, argv).slots) == p
  {
    var o := BgFg(s, argv);
    BgFgErrorOrResume(s, argv);
    if Target(s, argv).Some? {
      var k := Target(s, argv).value;
      assert forall i :: 0 <= i < |s| && i != k ==> o.slots[i].state != FG;
      assert Matches(o.slots[k], InForeground);
      assert forall j :: 0 <= j < k ==> !Matches(o.slots[j], InForeground);
      assert First(o.slots, InForeground) == Some(k);
    } else {
      assert forall e :: e in o.effects ==> e.Say?;
    }
  }

  /** `bg <pid>` and `fg <pid>`, with the pid written in decimal, continue the first slot
      holding that pid. */
  lemma BgFgByPid(s: seq<Job>, cmd: seq<char>, k: nat)
    requires k < |s| && s[k].pid >= 1
    requires forall j :: 0 <= j < k ==> s[j].pid != s[k].pid
    ensures BgFg(s, [cmd, Decimal(s[k].pid)]) == Resume(s, k, cmd == "bg")
  {
    var d := Decimal(s[k].pid);
    AtoiDecimal(s[k].pid, []);
    assert d + [] == d;
    assert IsDigit(CharAt(d, 0));
  }

  /** `bg %<jid>`, with the job id written in decimal, continues the first slot holding that
      job id. */
  lemma BgByJid(s: seq<Job>, k: nat)
    requires k < |s| && s[k].jid >= 1
    requires forall j :: 0 <= j < k ==> s[j].jid != s[k].jid
    ensures BgFg(s, ["bg", ['%'] + Decimal(s[k].jid)]) == Resume(s, k, true)
  {
    var a := ['%'] + Decimal(s[k].jid);
    AtoiDecimal(s[k].jid, []);
    assert a[1..] == Decimal(s[k].jid) + [];
  }

  /** `fg %<d>` with a single digit d continues the first slot holding job id d. */
  lemma FgByJid(s: seq<Job>, k: nat)
    requires k < |s| && 1 <= s[k].jid <= 9
    requires forall j :: 0 <= j < k ==> s[j].jid != s[k].jid
    ensures BgFg(s, ["fg", ['%', ('0' as int + s[k].jid) as char]]) == Resume(s, k, false)
  {
  }

  /** fg reads only one digit after `%`: `fg %12` asks for job 1 where `bg %12` asks for
      job 12, and a bare `fg %` asks for job -48, which is never found. */
  lemma FgReadsOneDigit()
    ensures Classify(["fg", "%12"]) == JidArg(1)
    ensures Classify(["bg", "%12"]) == JidArg(12)
    ensures Classify(["fg", "%"]) == JidArg(-48)
  {
    var a := "%12";
    assert a[0] == '%' && a[1] == '1' && a[1..] == "12";
    assert "fg" != "bg" by { assert "fg"[0] != "bg"[0]; }
    AtoiTwelve();
    assert CharAt("%", 1) == '\0';
  }

  /** atoi("12") is 12. */
  lemma AtoiTwelve()
    ensures Atoi("12") == 12
  {
    assert Decimal(12) == "12" by {
      assert Decimal(1) == "1";
    }
    AtoiDecimal(12, []);
    assert Decimal(12) + [] == "12";
  }

  // ---------------------------------------------------------------------------------------
  // Properties of launching a job.

  /** A failed fork (pid -1) and a full table both leave the table alone and print "Erorr!",
      the full table after "Tried to create too many jobs". */
  lemma LaunchRejects(t: Table, pid: int, bg: bool, cmdline: seq<char>)
    requires pid < 1 || forall i :: 0 <= i < |t.slots| ==> t.slots[i].pid != 0
    ensures LaunchSpec(t, pid, bg, cmdline).0 == t
    ensures LaunchSpec(t, pid, bg, cmdline).1 ==
      if pid < 1 then [Say(EvalError)] else [Say(TooManyJobs), Say(EvalError)]
  {
    AddRejects(t, pid, if bg then BG else FG, cmdline);
  }

  /** A new background job goes into the lowest free slot with the next job id, and the line
      printed names that job id, the pid and the command line. */
  lemma LaunchBackground(t: Table, pid: int, cmdline: seq<char>)
    requires WellFormed(t) && pid >= 1
    requires FindPid(t.slots, pid).None? && FirstFree(t.slots).Some?
    ensures var (t', effects) := LaunchSpec(t, pid, true, cmdline);
      && t'.slots[FirstFree(t.slots).value] == Job(pid, t.next, BG, cmdline)
      && effects == [Say(JobLine(t.next, pid, cmdline))]
  {
    AddThenFind(t, pid, BG, cmdline);
  }

  /** A new foreground job, started while no job is in the foreground, is the one job in the
      foreground, and eval waits for exactly that pid. */
  lemma LaunchForeground(t: Table, pid: int, cmdline: seq<char>)
    requires WellFormed(t) && pid >= 1
    requires FindPid(t.slots, pid).None? && FirstFree(t.slots).Some?
    requires forall i :: 0 <= i < |t.slots| ==> t.slots[i].state != FG
    ensures var (t', effects) := LaunchSpec(t, pid, false, cmdline);
      && t'.slots[FirstFree(t.slots).value] == Job(pid, t.next, FG, cmdline)
      && effects == [WaitFg(pid)]
      && AtMostOneFg(t'.slots)
      && FgPid(t'.slots) == pid
  {
    AddThenFind(t, pid, FG, cmdline);
    var f := FirstFree(t.slots).value;
    var s' := LaunchSpec(t, pid, false, cmdline).0.slots;
    AddFillsFirstFree(t, pid, FG, cmdline, f);
    assert forall i :: 0 <= i < |s'| && i != f ==> s'[i].state != FG;
    assert First(s', InForeground) == Some(f);
  }
}
