/**
 * Whole interactions with the shell, built from the pieces of the other modules: a job is
 * started in the foreground, the user types ctrl-z or ctrl-c, the child's status change
 * reaches sigchld_handler, and (after ctrl-z) the user resumes the job with bg.
 */
module Session {
  import opened Wrappers
  import opened CStrings
  import opened JobList
  import opened JobControl
  import opened Signals

  /** What the parent side of eval leaves for a new foreground job: the job in the lowest free
      slot, found by its pid, reported by fgpid, and waited for. */
  lemma LaunchedInForeground(t: Table, pid: int, cmdline: seq<char>)
    requires WellFormed(t) && pid >= 1
    requires FindPid(t.slots, pid).None? && FirstFree(t.slots).Some?
    requires forall i :: 0 <= i < |t.slots| ==> t.slots[i].state != FG
    ensures var f := FirstFree(t.slots).value;
      var (t1, e1) := LaunchSpec(t, pid, false, cmdline);
      && t1.slots == t.slots[f := Job(pid, t.next, FG, cmdline)]
      && e1 == [WaitFg(pid)]
      && FindPid(t1.slots, pid) == Some(f)
      && FgPid(t1.slots) == pid
  {
    LaunchForeground(t, pid, cmdline);
    AddThenFind(t, pid, FG, cmdline);
  }

  /** The stop of the one foreground job: it becomes stopped, the handler reports it, and
      nothing is left in the foreground. */
  lemma StopStep(t1: Table, f: nat, j: Job, sig: int)
    requires f < |t1.slots| && t1.slots[f] == j && j.pid >= 1 && j.state == FG
    requires FindPid(t1.slots, j.pid) == Some(f)
    requires forall i :: 0 <= i < |t1.slots| && i != f ==> t1.slots[i].state != FG
    ensures EventDefined(t1, Suspended(j.pid, sig))
    ensures ApplyEvent(t1, Suspended(j.pid, sig)) ==
      (t1.(slots := t1.slots[f := j.(state := ST)]), [Say(StoppedBy(j.jid, j.pid, sig))])
    ensures FgPid(ApplyEvent(t1, Suspended(j.pid, sig)).0.slots) == 0
  {
    var s2 := t1.slots[f := j.(state := ST)];
    assert forall i :: 0 <= i < |s2| ==> s2[i].state != FG;
  }

  /** `bg <pid>` on a stopped job, with nothing in the foreground: the job runs in the
      background, is printed, and ctrl-c then sends nothing. */
  lemma BgStep(s2: seq<Job>, f: nat, j: Job)
    requires f < |s2| && s2[f] == j && j.pid >= 1
    requires forall i :: 0 <= i < f ==> s2[i].pid != j.pid
    requires forall i :: 0 <= i < |s2| ==> s2[i].state != FG
    ensures BgFg(s2, ["bg", Decimal(j.pid)]) ==
      Outcome(s2[f := j.(state := BG)], [Kill(-j.pid, SIGCONT), Say(JobLine(j.jid, j.pid, j.cmdline))])
    ensures Forward(s2[f := j.(state := BG)], SIGINT) == []
  {
    BgFgByPid(s2, "bg", f);
    BgLeavesNoForeground(s2, f);
  }

  /** Setting one slot to BG in a table with nothing in the foreground leaves nothing there
      for ctrl-c to reach. */
  lemma BgLeavesNoForeground(s: seq<Job>, f: nat)
    requires f < |s| && forall i :: 0 <= i < |s| ==> s[i].state != FG
    ensures Forward(s[f := s[f].(state := BG)], SIGINT) == []
  {
    var s' := s[f := s[f].(state := BG)];
    assert forall i :: 0 <= i < |s'| ==> s'[i].state != FG;
  }

  /** ctrl-z on a new foreground job sends SIGTSTP to its process group; once the child
      stops, the handler marks exactly that job stopped and reports it, and eval's wait ends
      because nothing is in the foreground.  BgStep then applies to the stopped job. */
  lemma CtrlZStopsJob(t: Table, pid: int, cmdline: seq<char>)
    requires WellFormed(t) && pid >= 1
    requires FindPid(t.slots, pid).None? && FirstFree(t.slots).Some?
    requires forall i :: 0 <= i < |t.slots| ==> t.slots[i].state != FG
    ensures var t1 := LaunchSpec(t, pid, false, cmdline).0;
      && Forward(t1.slots, SIGTSTP) == [Kill(-pid, SIGTSTP)]
      && EventDefined(t1, Suspended(pid, SIGTSTP))
      && ApplyEvent(t1, Suspended(pid, SIGTSTP)) ==
           (t1.(slots := t.slots[FirstFree(t.slots).value := Job(pid, t.next, ST, cmdline)]),
            [Say(StoppedBy(t.next, pid, SIGTSTP))])
      && FgPid(ApplyEvent(t1, Suspended(pid, SIGTSTP)).0.slots) == 0
  {
    var f := FirstFree(t.slots).value;
    var j := Job(pid, t.next, FG, cmdline);
    var t1 := LaunchSpec(t, pid, false, cmdline).0;
    LaunchedInForeground(t, pid, cmdline);
    assert forall i :: 0 <= i < |t1.slots| && i != f ==> t1.slots[i].state != FG;
    StopStep(t1, f, j, SIGTSTP);
    assert t1.slots[f := j.(state := ST)] == t.slots[f := Job(pid, t.next, ST, cmdline)];
  }

  /** ctrl-c on a new foreground job sends SIGINT to its process group; once the child dies
      of it, the handler reports it, eval's wait ends and every slot is as it was before
      the job was started. */
  lemma CtrlCEndsJob(t: Table, pid: int, cmdline: seq<char>)
    requires WellFormed(t) && pid >= 1
    requires FindPid(t.slots, pid).None? && FirstFree(t.slots).Some?
    requires forall i :: 0 <= i < |t.slots| ==> t.slots[i].state != FG
    ensures var (t1, e1) := LaunchSpec(t, pid, false, cmdline);
      && e1 == [WaitFg(pid)]
      && Forward(t1.slots, SIGINT) == [Kill(-pid, SIGINT)]
      && EventDefined(t1, Signaled(pid, SIGINT))
      && var (t2, e2) := ApplyEvent(t1, Signaled(pid, SIGINT));
         && e2 == [Say(TerminatedBy(t.next, pid, SIGINT))]
         && FgPid(t2.slots) == 0
         && t2.slots == t.slots
  {
    LaunchedInForeground(t, pid, cmdline);
    AddThenDelete(t, pid, FG, cmdline);
    var s2 := ApplyEvent(LaunchSpec(t, pid, false, cmdline).0, Signaled(pid, SIGINT)).0.slots;
    assert s2 == t.slots;
  }
}
