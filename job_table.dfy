/**
 * The shell's global job list (`jobs[MAXJOBS]` and `nextjid`) as an object: the array is
 * updated slot by slot in place and every routine is a loop over the slots, as in the shell.
 * Each method is proved against the function of the same routine in JobList.
 */
module Jobs {
  import opened Wrappers
  import opened JobList

  class JobTable {
    /** The slots; the array itself is allocated once, like the shell's global array. */
    const jobs: array<Job>
    /** The next job id to allocate. */
    var nextjid: int

    /** The job list as a value. */
    ghost function Model(): Table
      reads this, jobs
    {
      Table(jobs[..], nextjid)
    }

    ghost predicate Valid()
      reads this, jobs
    {
      jobs.Length == MAXJOBS && WellFormed(Model())
    }

    /** Static initialisation: every slot zeroed and `nextjid = 1`. */
    constructor ()
      ensures Valid() && fresh(jobs)
      ensures Model() == InitialTable()
    {
      jobs := new Job[MAXJOBS](_ => EmptyJob);
      nextjid := 1;
    }

    /** clearjob: reset the four fields of one slot. */
    method ClearJob(i: nat)
      requires Valid() && i < jobs.Length
      modifies jobs
      ensures Valid()
      ensures jobs[..] == old(jobs[..])[i := EmptyJob]
    {
      jobs[i] := jobs[i].(pid := 0, jid := 0, state := UNDEF, cmdline := []);
    }

    /** initjobs: clear every slot; the allocator is left as it was. */
    method InitJobs()
      requires Valid()
      modifies jobs
      ensures Valid()
      ensures Model() == InitialTable().(next := old(nextjid))
    {
      for i := 0 to MAXJOBS
        invariant Valid()
        invariant forall j :: 0 <= j < i ==> jobs[j] == EmptyJob
      {
        ClearJob(i);
      }
      assert jobs[..] == InitialTable().slots;
    }

    /** maxjid: scan all slots for the largest job id. */
    method MaxJid() returns (max: int)
      requires Valid()
      ensures max == JobList.MaxJid(jobs[..])
    {
      max := 0;
      for i := 0 to MAXJOBS
        invariant max == JobList.MaxJid(jobs[..i])
      {
        assert jobs[..i + 1][..i] == jobs[..i];
        if jobs[i].jid > max {
          max := jobs[i].jid;
        }
      }
      assert jobs[..MAXJOBS] == jobs[..];
    }

    /** addjob: returns true (1) when the job was recorded, false (0) otherwise; the messages
        are what it prints. */
    method AddJob(pid: int, state: State, cmdline: seq<char>) returns (ok: bool, out: seq<Msg>)
      requires Valid()
      modifies this, jobs
      ensures Valid()
      ensures AddResult(Model(), ok, out) == Add(old(Model()), pid, state, cmdline)
    {
      AddPreservesWellFormed(Model(), pid, state, cmdline);
      if pid < 1 {
        return false, [];
      }
      for i := 0 to MAXJOBS
        invariant Model() == old(Model())
        invariant forall j :: 0 <= j < i ==> jobs[j].pid != 0
      {
        if jobs[i].pid == 0 {
          jobs[i] := jobs[i].(pid := pid, state := state, jid := nextjid);
          nextjid := nextjid + 1;
          if nextjid > MAXJOBS {
            nextjid := 1;
          }
          jobs[i] := jobs[i].(cmdline := cmdline);
          return true, [];
        }
      }
      return false, [TooManyJobs];
    }

    /** deletejob: clear the first slot holding pid and recompute the allocator. */
    method DeleteJob(pid: int) returns (ok: bool)
      requires Valid()
      modifies this, jobs
      ensures Valid()
      ensures DeleteResult(Model(), ok) == Delete(old(Model()), pid)
    {
      if pid < 1 {
        return false;
      }
      for i := 0 to MAXJOBS
        invariant Model() == old(Model())
        invariant forall j :: 0 <= j < i ==> jobs[j].pid != pid
      {
        if jobs[i].pid == pid {
          assert FindPid(Model().slots, pid) == Some(i);
          ClearJob(i);
          var m := MaxJid();
          nextjid := m + 1;
          return true;
        }
      }
      return false;
    }

    /** fgpid: the pid of the first foreground slot, 0 if there is none. */
    method FgPid() returns (pid: int)
      requires Valid()
      ensures pid == JobList.FgPid(jobs[..])
    {
      for i := 0 to MAXJOBS
        invariant forall j :: 0 <= j < i ==> jobs[j].state != FG
      {
        if jobs[i].state == FG {
          return jobs[i].pid;
        }
      }
      return 0;
    }

    /** getjobpid: the slot of the first job with this pid (the pointer the shell returns). */
    method GetJobPid(pid: int) returns (job: Option<nat>)
      requires Valid()
      ensures job == FindPid(jobs[..], pid)
    {
      if pid < 1 {
        return None;
      }
      for i := 0 to MAXJOBS
        invariant forall j :: 0 <= j < i ==> jobs[j].pid != pid
      {
        if jobs[i].pid == pid {
          return Some(i);
        }
      }
      return None;
    }

    /** getjobjid: the slot of the first job with this job id. */
    method GetJobJid(jid: int) returns (job: Option<nat>)
      requires Valid()
      ensures job == FindJid(jobs[..], jid)
    {
      if jid < 1 {
        return None;
      }
      for i := 0 to MAXJOBS
        invariant forall j :: 0 <= j < i ==> jobs[j].jid != jid
      {
        if jobs[i].jid == jid {
          return Some(i);
        }
      }
      return None;
    }

    /** pid2jid: the job id of the first job with this pid, 0 if there is none. */
    method Pid2Jid(pid: int) returns (jid: int)
      requires Valid()
      ensures jid == PidToJid(jobs[..], pid)
    {
      if pid < 1 {
        return 0;
      }
      for i := 0 to MAXJOBS
        invariant forall j :: 0 <= j < i ==> jobs[j].pid != pid
      {
        if jobs[i].pid == pid {
          return jobs[i].jid;
        }
      }
      return 0;
    }

    /** listjobs: the lines it prints, one per occupied slot in slot order. */
    method ListJobs() returns (lines: seq<Msg>)
      requires Valid()
      ensures lines == Listing(jobs[..])
    {
      lines := [];
      for i := 0 to MAXJOBS
        invariant lines == Listing(jobs[..i])
      {
        assert jobs[..i + 1][..i] == jobs[..i];
        if jobs[i].pid != 0 {
          var status := match jobs[i].state
            case BG => Running
            case FG => Foreground
            case ST => Stopped
            case UNDEF => InternalError(i, UNDEF);
          lines := lines + [ListLine(jobs[i].jid, jobs[i].pid, status, jobs[i].cmdline)];
        }
      }
      assert jobs[..MAXJOBS] == jobs[..];
    }
  }
}
